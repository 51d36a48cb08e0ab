/**
 * The three helpers of the MySQL layer that the persistence thread relies on
 * without touching the database: splitting a key into table and row ID
 * (_parseKey), the copy that builds SQL text (_strmov), and the error
 * classification of return codes (isDBError).
 */
module MysqlDB {
  import opened Bytes
  import opened Mem
  import Codec

  /** Return codes of the database layer (mysqlDB.h). */
  const DB_RET_TABLE_NOTEXIST: int := 1146
  const DB_RET_NOTRESULT: int := -1
  const DB_RET_SUCCESS: int := 0
  const DB_RET_CONNERROR: int := -2
  const DB_RET_DBINITERROR: int := -3
  const DB_RET_KEY_TOO_MANY: int := -4
  const DB_RET_CMD_NOT_FOUND: int := -5
  const DB_RET_EXPIRE: int := -6
  const DB_RET_LIST_NOT_WHERE: int := -7
  const DB_RET_NOT_SUPPORT: int := -8

  /** '_' separates the table name from the row ID in a key. */
  const UNDERSCORE: byte := 95
  /** '0', the row ID used when a key names none. */
  const DIGIT_ZERO: byte := 48

  // ---------------------------------------------------------------- keys

  /** The position of the first '_' at or after n in k, or |k| when there is none. */
  function Scan(k: seq<byte>, n: nat): (e: nat)
    requires n <= |k|
    ensures n <= e <= |k|
    ensures e < |k| ==> k[e] == UNDERSCORE
    ensures forall i :: n <= i < e ==> k[i] != UNDERSCORE
    decreases |k| - n
  {
    if n == |k| || k[n] == UNDERSCORE then n else Scan(k, n + 1)
  }

  /** The table name of a key: everything before its first '_'. */
  function TableOf(k: seq<byte>): seq<byte>
  {
    k[..Scan(k, 0)]
  }

  /** The row ID of a key: the bytes strictly between its first '_' and the next '_' or the end. */
  function IdOf(k: seq<byte>): seq<byte>
  {
    var e := Scan(k, 0);
    if e == |k| then [] else k[e + 1 .. Scan(k, e + 1)]
  }

  /** What the ID buffer starts with after parsing: the row ID, or "0" when the key has none. */
  function IdField(k: seq<byte>): seq<byte>
  {
    if IdOf(k) == [] then [DIGIT_ZERO] else IdOf(k)
  }

  /** The key a client writes for row i of table t. */
  function KeyOf(t: seq<byte>, i: seq<byte>): seq<byte>
  {
    t + [UNDERSCORE] + i
  }

  /** A scan from n stops at the first '_' it meets. */
  lemma ScanStops(k: seq<byte>, n: nat, m: nat)
    requires n <= m <= |k|
    requires forall i :: n <= i < m ==> k[i] != UNDERSCORE
    requires m == |k| || k[m] == UNDERSCORE
    ensures Scan(k, n) == m
  {
  }

  /**
   * Every key is its table name alone, or its table name, '_' and its row ID
   * followed by nothing or by a '_'-led rest; neither part holds a '_'.
   */
  lemma KeySplit(k: seq<byte>)
    ensures UNDERSCORE !in TableOf(k) && UNDERSCORE !in IdOf(k)
    ensures |TableOf(k)| == |k| ==> TableOf(k) == k && IdOf(k) == []
    ensures |TableOf(k)| < |k| ==>
      var r := k[|TableOf(k)| + 1 + |IdOf(k)|..];
      k == KeyOf(TableOf(k), IdOf(k)) + r && (r == [] || r[0] == UNDERSCORE)
  {
    var e := Scan(k, 0);
    var t := k[..e];
    assert forall i :: 0 <= i < e ==> t[i] == k[i];
    if e < |k| {
      var e2 := Scan(k, e + 1);
      var d := k[e + 1 .. e2];
      assert forall i :: 0 <= i < e2 - e - 1 ==> d[i] == k[e + 1 + i];
      assert k == t + [k[e]] + d + k[e2..];
    }
  }

  /**
   * Parsing a key built from a table name and a row ID that hold no '_'
   * gives both back, whatever '_'-led suffix follows them.
   */
  lemma ParseKeyOf(t: seq<byte>, i: seq<byte>, rest: seq<byte>)
    requires UNDERSCORE !in t && UNDERSCORE !in i
    requires rest == [] || rest[0] == UNDERSCORE
    ensures TableOf(KeyOf(t, i) + rest) == t
    ensures IdOf(KeyOf(t, i) + rest) == i
  {
    var k := KeyOf(t, i) + rest;
    assert forall n :: 0 <= n < |t| ==> k[n] == t[n];
    assert k[|t|] == UNDERSCORE;
    ScanStops(k, 0, |t|);
    assert forall n :: |t| + 1 <= n < |t| + 1 + |i| ==> k[n] == i[n - |t| - 1];
    ScanStops(k, |t| + 1, |t| + 1 + |i|);
    assert k[|t| + 1 .. |t| + 1 + |i|] == i;
  }

  /** A key without '_' is all table name, and its row ID is "0". */
  lemma ParseBareKey(t: seq<byte>)
    requires UNDERSCORE !in t
    ensures TableOf(t) == t && IdOf(t) == [] && IdField(t) == [DIGIT_ZERO]
  {
    ScanStops(t, 0, |t|);
  }

  /** Neither part of a key is longer than the key. */
  lemma PartsShorter(k: seq<byte>)
    ensures |TableOf(k)| <= |k| && |IdOf(k)| < |k| + 1
    ensures |TableOf(k)| + |IdOf(k)| <= |k|
  {
  }

  /**
   * One loop of _parseKey: copies key bytes from index start into dst from
   * index 0 until a '_' or keyLen, testing the bound before reading, and
   * returns the index it stopped at. Both loops of _parseKey are this loop.
   */
  method CopyField(key: seq<byte>, keyLen: nat, start: nat, dst: array<byte>) returns (n: nat)
    requires start <= keyLen <= |key|
    requires Scan(key[..keyLen], start) - start <= dst.Length
    modifies dst
    ensures n == Scan(key[..keyLen], start)
    ensures dst[..] == Poke(old(dst[..]), 0, key[start..n])
  {
    ghost var k := key[..keyLen];
    ghost var d0 := dst[..];
    n := start;
    while n < keyLen && key[n] != UNDERSCORE
      invariant start <= n <= keyLen && Scan(k, n) == Scan(k, start)
      invariant dst[..] == Poke(d0, 0, key[start..n])
    {
      PokeGrow(d0, dst[..], key, start, n);
      dst[n - start] := key[n];
      n := n + 1;
    }
  }

  /**
   * _parseKey: copies the table name of the first keyLen bytes of key into
   * table and their row ID into id, returning the row ID's length; when there
   * is none, id starts with '0'. No byte at or past keyLen is looked at. The
   * buffers must have room for the parts; nothing is NUL-terminated here (the
   * callers zero their buffers).
   */
  method ParseKey(key: seq<byte>, keyLen: nat, table: array<byte>, id: array<byte>) returns (j: nat)
    requires keyLen <= |key| && table != id
    requires |TableOf(key[..keyLen])| <= table.Length
    requires |IdField(key[..keyLen])| <= id.Length
    modifies table, id
    ensures j == |IdOf(key[..keyLen])|
    ensures table[..] == Poke(old(table[..]), 0, TableOf(key[..keyLen]))
    ensures id[..] == Poke(old(id[..]), 0, IdField(key[..keyLen]))
  {
    ghost var k := key[..keyLen];
    ghost var d0 := id[..];
    var n := CopyField(key, keyLen, 0, table);
    assert key[..n] == TableOf(k);
    n := n + 1;
    j := 0;
    if n <= keyLen {
      var m := CopyField(key, keyLen, n, id);
      j := m - n;
      assert key[n..m] == IdOf(k);
    }
    if j == 0 {
      PokeByte(d0, 0, DIGIT_ZERO);
      id[0] := DIGIT_ZERO;
    }
  }

  /** One more byte of s copied behind a poked slice of s extends the slice. */
  lemma PokeGrow(b0: seq<byte>, b: seq<byte>, s: seq<byte>, a: nat, n: nat)
    requires a <= n < |s| && n - a < |b0| && b == Poke(b0, 0, s[a..n])
    ensures b[n - a := s[n]] == Poke(b0, 0, s[a..n + 1])
  {
    PokeSnoc(b0, b, 0, s[a..n], s[n]);
    assert s[a..n] + [s[n]] == s[a..n + 1];
  }

  /** Storing one byte right after a poked range extends the range by that byte. */
  lemma PokeSnoc(b0: seq<byte>, b: seq<byte>, o: nat, x: seq<byte>, v: byte)
    requires o + |x| < |b0| && b == Poke(b0, o, x)
    ensures b[o + |x| := v] == Poke(b0, o, x + [v])
  {
    PokeByte(b, o + |x|, v);
    PokeThen(b0, o, x, [v]);
  }

  /** Updating index o is storing a single byte at o. */
  lemma PokeByte(b: seq<byte>, o: nat, v: byte)
    requires o < |b|
    ensures b[o := v] == Poke(b, o, [v])
  {
    forall i | 0 <= i < |b|
      ensures b[o := v][i] == Poke(b, o, [v])[i]
    {
      PokeAt(b, o, [v], i);
    }
  }

  /** The parts of a key that holds no NUL hold none either. */
  lemma PartsNulFree(k: seq<byte>)
    requires 0 !in k
    ensures 0 !in TableOf(k) && 0 !in IdOf(k) && 0 !in IdField(k)
  {
    var e := Scan(k, 0);
    assert forall i :: 0 <= i < e ==> TableOf(k)[i] == k[i];
    if e < |k| {
      var e2 := Scan(k, e + 1);
      assert forall i :: 0 <= i < e2 - e - 1 ==> IdOf(k)[i] == k[e + 1 + i];
    }
  }

  /**
   * The 16-byte table and ID buffers of _writeStrToDB are too small for the
   * keys packing lets through (shorter than MAX_KEY_LEN): a key of 16 'a's,
   * '_' and '1' leaves no NUL in a zeroed 16-byte table buffer, and one more
   * 'a' needs a 17th byte.
   */
  lemma KeyBufferTooSmall()
    ensures var k := seq(16, _ => 97) + [UNDERSCORE, 49];
      |k| < Codec.MAX_KEY_LEN && TableOf(k) == seq(16, _ => 97) &&
      0 !in Poke(seq(16, _ => 0), 0, TableOf(k))
    ensures var k := seq(17, _ => 97) + [UNDERSCORE, 49];
      |k| < Codec.MAX_KEY_LEN && |TableOf(k)| == 17
  {
    var t := seq(16, _ => 97);
    ParseKeyOf(t, [49], []);
    assert KeyOf(t, [49]) + [] == t + [UNDERSCORE, 49];
    PokeWhole(seq(16, _ => 0), t);
    var t2 := seq(17, _ => 97);
    ParseKeyOf(t2, [49], []);
    assert KeyOf(t2, [49]) + [] == t2 + [UNDERSCORE, 49];
  }

  /**
   * The key split as _writeStrToDB evidently means it, with buffers of
   * MAX_KEY_LEN zeroed bytes: every key packing accepts leaves both parts
   * NUL-terminated, so strlen reads back exactly the table name and the ID.
   */
  method SplitKey(key: seq<byte>) returns (table: array<byte>, id: array<byte>)
    requires |key| < Codec.MAX_KEY_LEN && 0 !in key
    ensures table.Length == id.Length == Codec.MAX_KEY_LEN
    ensures CStr(table[..]) == TableOf(key) && CStr(id[..]) == IdField(key)
  {
    table := new byte[Codec.MAX_KEY_LEN](_ => 0);
    id := new byte[Codec.MAX_KEY_LEN](_ => 0);
    ghost var zeros := table[..];
    assert id[..] == zeros;
    assert key[..|key|] == key;
    PartsNulFree(key);
    var _ := ParseKey(key, |key|, table, id);
    CStrOfPoked(zeros, TableOf(key));
    CStrOfPoked(zeros, IdField(key));
  }

  /** A NUL-free text stored at the start of a buffer with a NUL right after it reads back as that text. */
  lemma CStrOfPoked(buf: seq<byte>, x: seq<byte>)
    requires |x| < |buf| && buf[|x|] == 0 && 0 !in x
    ensures CStr(Poke(buf, 0, x)) == x
  {
    assert Poke(buf, 0, x) == x + [0] + buf[|x| + 1..];
    CStrOfTerminated(x, buf[|x| + 1..]);
  }

  // ---------------------------------------------------------------- SQL text

  /**
   * _strmov: copies src up to and including its NUL into dest from index at,
   * and returns the index of the copied NUL, where the next piece of text goes.
   */
  method Strmov(dest: array<byte>, at: nat, src: seq<byte>) returns (end: nat)
    requires 0 in src
    requires at + |CStr(src)| < dest.Length
    modifies dest
    ensures end == at + |CStr(src)|
    ensures dest[..] == Poke(old(dest[..]), at, CStr(src) + [0])
  {
    ghost var c := CStr(src);
    assert |c| < |src|;
    var i := 0;
    dest[at] := src[0];
    while src[i] != 0
      invariant i <= |c|
      decreases |c| - i
      invariant forall k :: 0 <= k < dest.Length ==> dest[k] == if at <= k <= at + i then src[k - at] else old(dest[k])
    {
      assert i < |c|;
      i := i + 1;
      dest[at + i] := src[i];
    }
    assert i == |c|;
    forall k | 0 <= k < dest.Length
      ensures dest[..][k] == Poke(old(dest[..]), at, c + [0])[k]
    {
      PokeAt(old(dest[..]), at, c + [0], k);
      if at <= k <= at + i {
        assert src[k - at] == (c + [0])[k - at];
      }
    }
    end := at + i;
  }

  /** The C string at the start of a NUL-free text followed by a NUL is that text. */
  lemma {:induction false} CStrOfTerminated(c: seq<byte>, rest: seq<byte>)
    requires 0 !in c
    ensures CStr(c + [0] + rest) == c
  {
    if c != [] {
      assert (c + [0] + rest)[1..] == c[1..] + [0] + rest;
      CStrOfTerminated(c[1..], rest);
    }
  }

  /** After _strmov the destination holds src as a C string from index at. */
  lemma StrmovReads(buf: seq<byte>, at: nat, src: seq<byte>)
    requires at + |CStr(src)| < |buf|
    ensures CStr(Poke(buf, at, CStr(src) + [0])[at..]) == CStr(src)
  {
    var c := CStr(src);
    var s := Poke(buf, at, c + [0]);
    assert s[at..] == c + [0] + buf[at + |c| + 1..];
    CStrOfTerminated(c, buf[at + |c| + 1..]);
  }

  /**
   * Two _strmov calls in a row, the second starting at the NUL the first
   * returned, leave the two texts joined behind one NUL: the first NUL is
   * overwritten.
   */
  lemma StrmovChain(buf: seq<byte>, at: nat, x: seq<byte>, y: seq<byte>)
    requires 0 !in x && 0 !in y
    requires at + |x| + |y| < |buf|
    ensures Poke(Poke(buf, at, x + [0]), at + |x|, y + [0]) == Poke(buf, at, x + y + [0])
  {
    var s1 := Poke(Poke(buf, at, x + [0]), at + |x|, y + [0]);
    var s2 := Poke(buf, at, x + y + [0]);
    forall k | 0 <= k < |buf|
      ensures s1[k] == s2[k]
    {
      PokeAt(Poke(buf, at, x + [0]), at + |x|, y + [0], k);
      PokeAt(buf, at, x + [0], k);
      PokeAt(buf, at, x + y + [0], k);
      if at <= k < at + |x| {
        assert (x + [0])[k - at] == (x + y + [0])[k - at];
      } else if at + |x| <= k <= at + |x| + |y| {
        assert (y + [0])[k - at - |x|] == (x + y + [0])[k - at];
      }
    }
  }

  // ---------------------------------------------------------------- errors

  /** isDBError: every code except "no such table", "no result" and "expired" is an error. */
  predicate IsDBError(ret: int)
  {
    ret != DB_RET_TABLE_NOTEXIST && ret != DB_RET_NOTRESULT && ret != DB_RET_EXPIRE
  }

  /** The database layer's return codes are pairwise distinct. */
  lemma CodesDistinct()
    ensures |{DB_RET_TABLE_NOTEXIST, DB_RET_NOTRESULT, DB_RET_SUCCESS, DB_RET_CONNERROR,
              DB_RET_DBINITERROR, DB_RET_KEY_TOO_MANY, DB_RET_CMD_NOT_FOUND, DB_RET_EXPIRE,
              DB_RET_LIST_NOT_WHERE, DB_RET_NOT_SUPPORT}| == 10
  {
  }

  /**
   * How isDBError classifies the layer's own codes: the three "nothing there"
   * answers are not errors; every other code, DB_RET_SUCCESS included, is.
   */
  lemma DBErrorClasses(ret: int)
    ensures !IsDBError(ret) <==> ret in {DB_RET_TABLE_NOTEXIST, DB_RET_NOTRESULT, DB_RET_EXPIRE}
    ensures ret in {DB_RET_SUCCESS, DB_RET_CONNERROR, DB_RET_DBINITERROR, DB_RET_KEY_TOO_MANY,
      DB_RET_CMD_NOT_FOUND, DB_RET_LIST_NOT_WHERE, DB_RET_NOT_SUPPORT}
      ==> IsDBError(ret)
  {
  }
}
