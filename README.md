# Persistence core of a MySQL-backed Redis: a Dafny model

This project models the part of the server that makes write commands
durable. A write command that the whitelist admits is packed into a record.
The record is pushed onto a single-producer, single-consumer job list: a
power-of-two ring buffer of length-prefixed records, which grows by
doubling when it is full. A background consumer pops each record, unpacks
it and hands it to the MySQL layer. Three of that layer's helpers are
modelled as well: splitting a key into table name and row ID, the copy
that builds SQL text, and the classification of return codes.

There are two revisions of the job list. The object-style one in
`src/joblist.c` is the class `Joblist.JobList` over a `JobBuff`. The
global-manager one in `src/persistence.c` is the class `Persistence.PMgr`
over a `JobList` header. Both classes share one pure layer:

- `Ring`: the byte layout, the pad zone and the reader's walk;
- `Records`: the walk over an abstract step function;
- `Queue`: what each push, pop and resize step does to the queue of jobs the walk lists.

Each class method is proved against that queue (`Jobs()`). A push appends
its job. A pop reads the first job. Consuming a job removes it. A resize
keeps the queue and leaves room for any admissible push.

The other modules:

- `Codec`: packing and unpacking of commands, `_packCmd`, `_unpackCmd` and `packPersistenceJob`. It is proved as a round trip.
- `PowerOfTwo` and `Bits`: the `NEXT_POT` macro, as shifts and ors on naturals.
- `MysqlDB`: `_parseKey`, `_strmov` and `isDBError`.
- `AsWritten`: the header arithmetic as the source writes it: the writer's pad, the reader's skip, the full tests, and the sizes resize copies with. It comes with the concrete inputs on which that arithmetic fails (see "## Findings"). The bytes the resize copies move are not modelled there.

The classes model the protocol as evidently intended, for two reasons.
First, several of the source's header computations break the queue
(see "## Findings"). Second, threads are not modelled, so the protocol
runs sequentially:

- a push that finds the list full raises the resize flag and returns `RESIZING`;
- the next pop performs the resize.

The source's pad test does not use the length of the record about to be
written. It uses the largest record size (`maxBufSize`,
`MAX_PERSISTENCE_BUF_SIZE`). The model builds its pad zone on that bound
too, with the 4-byte length prefix added to it, which is the first row of
"## Findings".

## Model

| member | source | states |
|---|---|---|
| Bytes.EncodeInt | src/persistence.c:261 | the length prefix of a frame is four bytes |
| Bytes.DecodeEncode | src/persistence.c:280 | reading a stored C int back gives the same int |
| Bytes.EncodeDecode | src/joblist.c:33 | every four bytes are the encoding of the int they decode to |
| Bytes.CStr | src/persistence.c:261 | what strlen counts: a NUL-free prefix, followed by a NUL unless it is everything |
| PowerOfTwo.NextPot | src/joblist.h:7-15 | NEXT_POT(n) for 1 <= n <= 2^30 is a power of two, at least n and less than 2n |
| PowerOfTwo.NextPotOfPow2 | src/persistence.h:18-26 | NEXT_POT maps a power of two to itself |
| PowerOfTwo.NextPotIsLeast | src/joblist.h:7-15 | no power of two that reaches n is below NEXT_POT(n) |
| PowerOfTwo.NextPotUnique | src/persistence.h:18-26 | NEXT_POT(n) is the only power of two in [n, 2n) |
| PowerOfTwo.SmearIsLowMask | src/joblist.h:9-13 | the five or-shift lines turn x into the all-ones mask just covering its top digit |
| PowerOfTwo.RoundUp | src/persistence.c:56 | the rounded capacity is 2^k with n <= 2^k < 2n |
| Bits.MaskIsMod | src/joblist.c:167 | c & (2^k - 1) equals c mod 2^k, so masking a counter gives its offset |
| Ring.Pad | src/joblist.c:177-185 | the writer pads exactly in the pad zone, and the pad ends at the end of the buffer |
| Ring.RecordFits | src/persistence.c:303-312 | outside the pad zone a record of admissible length ends inside the buffer |
| Ring.Next | src/joblist.c:22-38 | each step of the reader's walk moves its counter forward |
| Queue.Record | src/joblist.c:49-50 | a record is the encoded length followed by the payload |
| Queue.PushAt | src/joblist.c:165-169 | the record goes outside the pad zone: at the writer, or at the next lap start after a pad |
| Queue.PushKeeps | src/joblist.c:40-57 | a push the full test admits leaves a well-formed list whose queue is the old queue plus the payload |
| Queue.EmptyIff | src/joblist.c:200-203 | the queue is empty exactly when the two counters meet |
| Queue.SkipPad | src/joblist.c:187-198 | a reader at the pad of a non-empty list finds the recorded pad width, lands at a lap start and keeps the queue |
| Queue.Head | src/joblist.c:31-37 | a reader outside the pad zone of a non-empty list finds the first job's length and bytes, and stepping past them drops that job |
| Queue.PadWriter | src/joblist.c:75 | padding the writer of a non-empty list whose reader is at a record keeps the queue |
| Queue.Relinearize | src/joblist.c:82-97 | copying the reader's part, then the writer's part, to offset 0 of a buffer twice as large keeps the queue |
| Queue.RoomAfterGrow | src/joblist.c:92-96 | after a resize no push of an admissible length is full |
| Queue.RoomInOneLap | src/joblist.c:77-81 | when the writer is past the reader in one lap, no push of an admissible length is full |
| Joblist.JobList.constructor | src/joblist.c:151-163 | initJoblist gives an empty list of NEXT_POT(listsize) bytes with no resize pending |
| Joblist.JobList.InitJobBuff | src/joblist.c:116-149 | a fresh buffer of NEXT_POT(size) bytes with zeroed counters |
| Joblist.JobBuff.constructor | src/joblist.c:139-145 | the malloc branch of _initJobBuff: both counters and the pad width 0, over a fresh buffer of the given size |
| Joblist.JobList.IsEmpty | src/joblist.c:200-203 | true exactly when the queue is empty |
| Joblist.JobList.IsFull | src/joblist.c:205-208 | the corrected full test: true exactly when the record, placed where the push would put it after any pad, would end more than one lap past the reader; for a writer that needs no pad it is the source's test |
| Joblist.JobList.Index | src/joblist.c:167 | the masked counter is the counter's offset |
| Joblist.JobList.BackWsize | src/joblist.c:177-185 | pads exactly when the writer is in the pad zone, recording the pad width |
| Joblist.JobList.WriterIdx | src/joblist.c:165-169 | returns where the record goes and leaves the writer and pad width as a push needs them |
| Joblist.JobList.BackRsize | src/joblist.c:187-198 | skips exactly when the reader is in the pad zone of a non-empty list, keeping the queue |
| Joblist.JobList.ReaderIdx | src/joblist.c:171-175 | returns the reader's offset, which is at a record whenever the queue is non-empty |
| Joblist.JobList.IncWsize | src/joblist.c:106-109 | the writer advances by the record, prefix included |
| Joblist.JobList.ResizeStart | src/joblist.c:59-68 | raises the resize flag and changes nothing else |
| Joblist.JobList.Append | src/joblist.c:46-54 | stores the record at PushAt and appends the payload to the queue |
| Joblist.JobList.Push | src/joblist.c:40-57 | SIZE_OVERFLOW exactly for an empty or too long a payload; otherwise RESIZING with nothing but the flag changed when full, else the queue gains the payload |
| Joblist.JobList.IncRsize | src/joblist.c:111-114 | consuming the first job removes it from the queue |
| Joblist.JobList.Regrow | src/joblist.c:73-74 | the corrected case of a list emptied while a resize is pending, where the source's backuplen is 0 and its assertion fails: an empty list of twice the size, both counters at 0, with room for any push |
| Joblist.JobList.InitDoubled | src/joblist.c:92 | _initJobBuff(this, oldsize * 2): a fresh zeroed buffer of twice the capacity, the mask and exponent updated |
| Joblist.JobList.LayOut | src/joblist.c:92-97 | a fresh buffer twice as large holds the saved bytes from offset 0, with the counters reset |
| Joblist.JobList.Relayout | src/joblist.c:73-97 | a wrapped list is laid out from offset 0 of a buffer twice as large with its queue kept; the staged length, the new writer counter, is w - r - dirtysize |
| Joblist.JobList.ResizeEnd | src/joblist.c:70-104 | keeps the queue, clears the flag, and leaves room for any admissible push |
| Joblist.JobList.PushThroughResize | src/joblist.c:40-68 | the blocking push made sequential: a full push raises the flag, the next pop resizes, and the retried push succeeds; the queue gains the job |
| Joblist.JobList.ReadHead | src/joblist.c:31-37 | the length read is the first job's, and its bytes follow the prefix |
| Joblist.JobList.Pop | src/joblist.c:22-38 | POP_EMPTY exactly when the queue is empty, otherwise the first job's length and bytes; the queue is unchanged, and a pending resize is done first and leaves room for any admissible push |
| Copies.SaveUnread | src/joblist.c:83-90 | the staging copy holds the reader's part followed by the writer's part |
| Copies.StoreRecord | src/joblist.c:49-50 | the buffer holds the record at widx and is unchanged elsewhere |
| Copies.StorePayloadFirst | src/persistence.c:96-97 | storing the payload and then the length leaves the same buffer |
| Mem.Copy | src/joblist.c:97 | memcpy between two arrays: the destination holds the source's n bytes at the offset (as in src/persistence.c:137) and is unchanged elsewhere |
| Mem.CopyIn | src/joblist.c:97 | memcpy: the destination holds the source bytes at the offset and is unchanged elsewhere |
| Persistence.CodesDistinct | src/persistence.h:8-16 | the failure codes are negative and pairwise distinct, and the success codes are 0 |
| Persistence.RecordBounds | src/persistence.h:6-7 | the prefix is 4 bytes, records stay under 10240 bytes, and NEXT_POT(10244) = 16384 |
| Persistence.NextSleepSum | src/persistence.c:294-301 | one wait moves the counter to (s + 1) mod 2147483640; s + 1 never overflows an int |
| Persistence.SleepSumCounts | src/persistence.c:294-301 | after k waits from 0 the counter is k mod 2147483640 |
| Persistence.PMgr.WaitSleep | src/persistence.c:294-301 | the counter becomes NextSleepSum of the old one; nothing else changes |
| Persistence.PMgr.constructor | src/persistence.c:196-211 | initPersistence gives an empty list of NEXT_POT(joblistsize) bytes, no resize pending and the counter at 0 |
| Persistence.PMgr.InitJoblist | src/persistence.c:54-82 | a fresh zeroed header over NEXT_POT(size) bytes |
| Persistence.JobList.constructor | src/persistence.c:72-75 | the header of a newly created mmap file: both counters and the pad width 0, over a fresh buffer of the given size |
| Persistence.PMgr.IsEmpty | src/persistence.c:325-328 | true exactly when the queue is empty |
| Persistence.PMgr.IsFull | src/persistence.c:330-333 | the corrected full test: the source's test on len + JOBLEN_SIZE, taken with the writer where the corrected pad leaves it |
| Persistence.PMgr.Index | src/persistence.c:305 | the masked counter is the counter's offset |
| Persistence.PMgr.GetWidx | src/persistence.c:303-312 | returns where the record goes and leaves the writer and pad width as a push needs them |
| Persistence.PMgr.GetRidx | src/persistence.c:314-323 | keeps the queue; the reader is at a record whenever the queue is non-empty; it moves only past the pad of a non-empty list |
| Persistence.PMgr.IncWriteidx | src/persistence.c:146-149 | the writer advances by inc |
| Persistence.PMgr.IncReadidx | src/persistence.c:151-154 | consuming the first job removes it from the queue |
| Persistence.PMgr.ResizeStart | src/persistence.c:106-115 | raises the resize flag and changes nothing else |
| Persistence.PMgr.Append | src/persistence.c:89-101 | stores the record at PushAt and appends the payload to the queue |
| Persistence.PMgr.Push | src/persistence.c:84-104 | SIZE_OVERFLOW exactly for too long a payload; otherwise RESIZING with nothing but the flag changed when full, else the queue gains the payload |
| Persistence.PMgr.AddPersistenceJob | src/persistence.c:241-244 | a non-positive length gives SIZE_OVERFLOW with the list unchanged; otherwise it acts as a push of the first len bytes |
| Persistence.PMgr.Regrow | src/persistence.c:119-137 | the corrected case of a list emptied while a resize is pending, where the source copies with a negative backuplen: an empty list of twice the size, both counters at 0, with room for any push |
| Persistence.PMgr.InitDoubled | src/persistence.c:133 | _initJoblist(oldjoblistsize * 2): a fresh zeroed header and buffer of twice the capacity, the mask and exponent updated |
| Persistence.PMgr.LayOut | src/persistence.c:134-137 | a fresh buffer twice as large holds the saved bytes from offset 0, with the counters reset |
| Persistence.PMgr.Relayout | src/persistence.c:119-140 | a wrapped list is laid out from offset 0 of a buffer twice as large with its queue kept; the staged length, the new writer counter, is w - r - dirtysize |
| Persistence.PMgr.ResizeEnd | src/persistence.c:117-144 | keeps the queue, clears the flag, and leaves room for any admissible push |
| Persistence.PMgr.PushThroughResize | src/persistence.c:84-115 | the blocking push made sequential: a full push raises the flag, the next pop resizes, and the retried push succeeds; the queue gains the job |
| Persistence.PMgr.ReadHead | src/persistence.c:163-172 | the length read is the first job's, and its bytes follow the prefix |
| Persistence.PMgr.Pop | src/persistence.c:156-174 | POPJOBLIST_EMPTY exactly when the queue is empty, otherwise the first job's length and bytes; the queue is unchanged, and a pending resize is done first and leaves room for any admissible push |
| Codec.ProcBytes | src/persistence.c:256 | the command's identity takes PROC_SIZE bytes |
| Codec.CommandOfProcBytes | src/persistence.c:275 | the identity bytes name the command back |
| Codec.CStrs | src/persistence.c:261 | one strlen view per argument |
| Codec.FramesFirst | src/persistence.c:258-267 | the frames of a list of arguments are the first argument's record followed by the frames of the rest |
| Codec.WriteFrame | src/persistence.c:259-266 | writes the length, and the bytes only when the new offset stays below MAX_PERSISTENCE_BUF_SIZE |
| Codec.StoreArg | src/persistence.c:258-267 | one loop step: the buffer holds PROC_SIZE bytes plus the frames of one more argument |
| Codec.PackArgs | src/persistence.c:258-268 | SIZE_OVERFLOW exactly when the frames reach MAX_PERSISTENCE_BUF_SIZE, else the buffer holds the identity and all frames and their length is returned |
| Codec.PackCmd | src/persistence.c:246-269 | KEYSIZE_EXCEED for a key of 32 bytes or more, with nothing written; otherwise SIZE_OVERFLOW or the record's length, with the record in the buffer |
| Codec.UnpackCmd | src/persistence.c:271-284 | the loop computes Unpack: the identity and the arguments, or None for a malformed record |
| Codec.UnframeFrames | src/persistence.c:278-282 | walking frames that _packCmd wrote gives back exactly the arguments |
| Codec.PackUnpack | src/persistence.c:246-284 | unpacking a packed command gives the same command and the strlen view of every argument, in order |
| Codec.PackPersistenceJob | src/persistence.c:213-239 | ARGC_OVERFLOW when argc (the arguments plus the command name) reaches MAX_CMD_ARGV; the whitelisted command and arity combinations are packed; everything else gives NOTFOUNDCMD |
| MysqlDB.Scan | src/mysqlDB.c:97 | the first '_' at or after n, or the end: no '_' before it |
| MysqlDB.KeySplit | src/mysqlDB.c:94-111 | every key is its table name alone, or table name, '_' and row ID followed by nothing or by a '_'-led rest; neither part holds a '_' |
| MysqlDB.ParseKeyOf | src/mysqlDB.c:94-111 | a key made of a table name, '_' and a row ID, neither holding '_', parses back to both parts |
| MysqlDB.ParseBareKey | src/mysqlDB.c:107-109 | a key without '_' is all table name, and its ID is "0" |
| MysqlDB.PartsShorter | src/mysqlDB.c:94-111 | together the two parts are no longer than the key |
| MysqlDB.CopyField | src/mysqlDB.c:97-106 | one copy loop: stops at the first '_' or keyLen and copies exactly the bytes before it |
| MysqlDB.ParseKey | src/mysqlDB.c:94-111 | the table buffer gets the table name, the ID buffer gets the row ID or "0", and the row ID's length is returned; nothing at or past keyLen is read |
| MysqlDB.PartsNulFree | src/mysqlDB.c:290 | the parts of a NUL-free key are NUL-free |
| MysqlDB.KeyBufferTooSmall | src/mysqlDB.c:288-290 | a key packing accepts can leave the 16-byte table buffer without a NUL, or need a 17th byte |
| MysqlDB.SplitKey | src/mysqlDB.c:288-290 | with buffers of MAX_KEY_LEN zeroed bytes, strlen reads back the table name and the row ID of every accepted key |
| MysqlDB.Strmov | src/mysqlDB.c:237-241 | copies src through its NUL and returns the index of the copied NUL |
| MysqlDB.StrmovReads | src/mysqlDB.c:237-241 | after the copy, strlen at the destination reads back src |
| MysqlDB.StrmovChain | src/mysqlDB.c:293-299 | chained calls join the texts behind a single NUL |
| MysqlDB.CodesDistinct | src/mysqlDB.h:6-16 | the database layer's ten codes are pairwise distinct |
| MysqlDB.DBErrorClasses | src/mysqlDB.c:740-743 | isDBError is false exactly for 1146, -1 and -6, and true for every other code, DB_RET_SUCCESS included |
| AsWritten.PadZoneOverrun | src/persistence.c:306 | as written, a writer at 6144 of 16384 does not pad, and the largest record overruns the buffer by 3 bytes |
| AsWritten.FullBeforePad | src/joblist.c:46 | as written, a push judged not full pads and then writes over an unread record |
| AsWritten.ResizePadsWriterFirst | src/joblist.c:75-76 | as written, resize pads the writer first, and the reader's assertion on the pad width then fails |
| AsWritten.EmptyListSkip | src/persistence.c:159 | as written, an empty list whose counters sit in the pad zone fails the reader's assertion |
| AsWritten.PadBeforeFull | src/persistence.c:89-91 | as written, the writer's pad overwrites the pad width the reader still needs, and the push is full |
| AsWritten.SameLapResize | src/persistence.c:123 | as written, a full push in a single lap makes resize's assertion widx <= ridx fail |
| AsWritten.PadWriterAgrees | src/persistence.c:303-312 | the as-written pad (also src/joblist.c:177-185) and the corrected one leave the same header and writer offset except on the 4-byte strip before the pad zone, where only the corrected one pads |
| AsWritten.SkipReaderAgrees | src/persistence.c:314-323 | the as-written reader skip (also src/joblist.c:187-198) and the corrected one move the reader alike except on that strip |
| AsWritten.FullTestsAgree | src/joblist.c:205-208 | the corrected full test is the persistence.c:330-333 test taken after the corrected pad, and the joblist.c test itself for a writer that needs no pad |
| AsWritten.BackupLenOnWrap | src/persistence.c:119-135 | with the writer one lap past the reader, backuplen and the writer counter behind + front agree; they part only on a list that is not wrapped |
| AsWritten.ZeroLengthPush | src/joblist.c:43-54 | as written, a zero-length push passes the only length test and stores a length of 0, which the pop's assertion len > 0 at line 35 rejects |
| AsWritten.EmptiedJoblistResize | src/joblist.c:73-74 | as written, a list the consumer empties while a resize is pending gives backuplen 0, and the assertion backuplen > 0 fails |
| AsWritten.EmptiedPersistenceResize | src/persistence.c:119-137 | as written, the same steps give backuplen -6384 for zmalloc and memcpy, and a new writer counter of 10000 over consumed bytes |

## Left out

- Backing files: `open`/`access`/`stat`/`ftruncate`/`mmap` in `_initJoblist` and in `_initJobBuff`'s mmap branch. These are operating-system I/O. Only the branch that creates a fresh zeroed region is modelled.
- Threads and waiting: `pthread_create`, the `_persistenceMain` loop, `usleep` and the busy-wait loops. These are concurrency. The resize handshake is sequential: a full push returns `RESIZING` instead of blocking, and the next pop resizes.
- Joblist.JobList.BackRsize: the source waits while the list is empty; here the reader stays and the caller sees an empty list.
- Joblist.JobList.ResizeEnd: requires `2 * listsize <= 2^30`. Doubling past that overflows the source's `int` size, which the model does not represent. It does not compute the source's `backuplen` and does not make its assertion: an emptied list is regrown to an empty list (see "## Findings"), and a wrapped list stages exactly `w - r - dirtysize` bytes, as `Relayout` states.
- Persistence.PMgr.ResizeEnd: requires `2 * joblistsize <= 2^30`, for the same reason. When the writer is past the reader in one lap, the source's `assert(widx <= ridx)` fails. The model instead keeps the list and clears the flag, as `src/joblist.c:77-81` does. An emptied list is regrown instead of being copied with a negative `backuplen` (see "## Findings").
- Joblist.JobList.Push and Persistence.PMgr.Push: these implement the corrected full test and pad order. The source's order is modelled in `AsWritten`. Joblist.JobList.Push also refuses an empty job, which the source stores (see "## Findings").
- Joblist.JobList.constructor: requires `1 <= listsize <= 2^30`, beyond which NEXT_POT overflows an `int`, and `1 <= maxBufSize` with `maxBufSize + 4 <= NEXT_POT(listsize)`. `initJoblist` accepts any size, but on a smaller list every writer offset is in the pad zone and a record of the largest length overruns the buffer. The model does not describe such lists.
- Persistence.PMgr.constructor: requires `1 <= joblistsize <= 2^30` and `NEXT_POT(joblistsize) >= 10244`, that is `joblistsize > 8192`, for the same reasons. `initPersistence(8192)` gives a list where every `_getjoblistWidx` pads and a 10239-byte record overruns the buffer.
- Ring.Pad, Joblist.JobList.BackWsize, Joblist.JobList.WriterIdx, Joblist.JobList.BackRsize, Persistence.PMgr.GetWidx and Persistence.PMgr.GetRidx: the pad zone is `off + M + 4 > L`, counting the length prefix that the source's `off + M > L` leaves out (first row of "## Findings"). On the 4-byte strip where the two differ, these members pad or skip where the source does not; `AsWritten.PadWriterAgrees` and `AsWritten.SkipReaderAgrees` state that they agree everywhere else.
- Logging and observability: `redisLog` and `persistenceInfo`.
- Command identity: `_packCmd` stores the raw bytes of the handler's address. It is modelled as eight tag bytes per whitelisted command, because an address has no meaning outside the running process.
- Codec.CStrs: arguments are read with `strlen`, so binary arguments are cut at their first NUL. The model states this; it does not claim that binary values round-trip.
- Codec.PackCmd: requires a buffer of `MAX_PERSISTENCE_BUF_SIZE + 3` bytes, because the length is written before the offset test. It also requires every argument to be short enough (`ShortArgs`) that the running `int` offset cannot overflow. Larger arguments are not modelled.
- Codec.UnpackCmd: a record shorter than the 8 identity bytes, or one with a negative or truncated length, or one that overruns the record, gives None. On a record shorter than 8 bytes the source still copies the 8 identity bytes and returns no arguments. The source reads out of bounds on such a record.
- Codec.UnpackCmd: a record with more than 1024 arguments gives None. The source first writes `cmdArgvs[1024]` out of bounds and then fails its assertion.
- Persistence.PMgr.WaitSleep: requires `0 <= sleepSum < 2147483640`, which holds from initialisation on; the `usleep` itself is left out.
- The 64-bit counters `wSize`/`rSize` are unbounded naturals here; their wrap-around after 2^64 bytes is not modelled.
- MysqlDB.ParseKey: requires buffers large enough for both parts. The source writes past a 16-byte buffer instead (see "## Findings"). The source also reads `key[n]` before testing `n < keyLen`, and after a key without '_' it reads `key[keyLen + 1]`; the model tests the bound first.
- MysqlDB.Strmov: requires a NUL in `src` and room in `dest`, which `_strmov` assumes of its callers.
- The rest of `src/mysqlDB.c`: SQL building around `mysql_real_escape_string`, `mysql_query`, result handling, table creation, `writeToDB`, `readFromDB` and the float scores of `_loadZsetFromDB`. These are foreign MySQL and server calls.

## Findings

| source | as written | input that shows it | evidently intended | confidence | as-written member | corrected member |
|---|---|---|---|---|---|---|
| src/persistence.c:306 | the writer pads when `widx + MAX_PERSISTENCE_BUF_SIZE > size` (the same test is at `src/joblist.c:179`); the 4-byte prefix is not counted | size 16384, writer at offset 6144, payload of 10239 bytes: the record ends 3 bytes past the buffer | pad when `widx + max + JOBLEN_SIZE > size` | not executed | AsWritten.PadZoneOverrun | Ring.RecordFits |
| src/joblist.c:46 | fullness is checked before `_jobListWidx` pads, so the pad is not counted | size 16, records under 8 bytes, reader 0, writer 11, 1-byte push: the push is judged not full, the writer pads to 16, and the record overwrites the unread record at offset 0 | count the prospective pad in the full test | not executed | AsWritten.FullBeforePad | Queue.PushKeeps |
| src/joblist.c:75-76 | resize pads the writer before the reader skips its own pad | size 16, reader at the 6-byte pad at offset 10, writer 25: dirtysize becomes 7, and the assertion at line 193 fails | skip the reader's pad first, then pad the writer | not executed | AsWritten.ResizePadsWriterFirst | Joblist.JobList.ResizeEnd |
| src/persistence.c:159 | `_popJobList` lets the reader skip before it tests for an empty list | a fresh list of 16384 bytes whose only job, of 6996 bytes, has been consumed: both counters at 7000 and dirtysize 0, so the assertion at line 318 fails on the next pop | skip the pad only when the list is non-empty | not executed | AsWritten.EmptyListSkip | Persistence.PMgr.GetRidx |
| src/persistence.c:89-91 | the push pads the writer before its full test, overwriting the pad width the reader still needs | size 16384, reader at 8000 on an 8384-byte pad, writer 23384: the pad sets dirtysize to 9384 and the push is full; on the next pop the reader's skip at line 159 fails its assertion at line 318, before the resize is reached | test fullness including the pad first; pad only when the push goes ahead | not executed | AsWritten.PadBeforeFull | Persistence.PMgr.Push |
| src/persistence.c:123 | `assert(widx <= ridx)` assumes that a full list has wrapped | size 16384, reader 0, writer 6144, push of 10239 bytes: the push is full, and resize finds widx 6144 > ridx 0 | with the prefix counted in the pad zone, a list in one lap is never full | not executed | AsWritten.SameLapResize | Queue.RoomInOneLap |
| src/mysqlDB.c:288-290 | `_writeStrToDB` parses a key into 16-byte `table` and `ID` buffers, while packing admits keys of up to 31 bytes | key of 16 'a', '_', '1': the table buffer has no NUL and `strlen(table)` reads past it; with 17 'a' the parse writes a 17th byte | buffers of MAX_KEY_LEN bytes | not executed | MysqlDB.KeyBufferTooSmall | MysqlDB.SplitKey |
| src/joblist.c:43 | `pushJobList` refuses only `len >= maxBufSize`, so a zero-length job is stored as a bare length prefix holding 0 | an empty list of 16384 bytes, push of length 0: the push succeeds, and the pop that reads it fails the assertion `len > 0` at line 35 | refuse an empty job, as `addPersistenceJob` does at `src/persistence.c:243` | not executed | AsWritten.ZeroLengthPush | Joblist.JobList.Push |
| src/joblist.c:73-74 | `_resizeJobListEnd` takes `w - r - dirtysize` as the unread size and asserts it positive, but the consumer may empty the list while a resize is pending | size 16384, records under 10240 bytes: push 9996 bytes (writer 10000), pop it, push 9996 bytes (full, resize pending), consume the first job: the counters meet, backuplen is 0, and the assertion fails | an emptied list becomes an empty list of twice the size | not executed | AsWritten.EmptiedJoblistResize | Joblist.JobList.Regrow |
| src/persistence.c:119-137 | the same `backuplen`, taken after the pop's reader index has skipped the pad, goes negative on an emptied list and is passed to `zmalloc` and `memcpy`; the new writer counter is `behind + front` | the same steps on a 16384-byte list: the second push pads the writer to 16384 and is full; after the first job is consumed the reader skips the 6384-byte pad, backuplen is -6384, and the writer counter becomes 10000 over consumed bytes | an emptied list becomes an empty list of twice the size | not executed | AsWritten.EmptiedPersistenceResize | Persistence.PMgr.Regrow |
