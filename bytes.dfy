/** Bytes, C ints stored with memcpy, and C strings. */
module Bytes {

  type byte = b: int | 0 <= b < 256

  datatype Option<T> = None | Some(value: T)

  /** Width of the length prefix (JOBLEN_SIZE, joblist.h and persistence.h). */
  const JOBLEN_SIZE: nat := 4

  const INT_MIN: int := -0x8000_0000
  const INT_MAX: int := 0x7fff_ffff

  predicate IsCInt(n: int)
  {
    INT_MIN <= n <= INT_MAX
  }

  /** The 4 bytes `memcpy(dst, &n, JOBLEN_SIZE)` stores for a C int (little-endian, two's complement). */
  function EncodeInt(n: int): (b: seq<byte>)
    requires IsCInt(n)
    ensures |b| == JOBLEN_SIZE
  {
    var u: int := if n < 0 then n + 0x1_0000_0000 else n;
    var q1 := u / 256;
    var q2 := q1 / 256;
    [u % 256, q1 % 256, q2 % 256, q2 / 256]
  }

  /** The C int `memcpy(&n, src, JOBLEN_SIZE)` loads. */
  function DecodeInt(b: seq<byte>): (n: int)
    requires |b| == JOBLEN_SIZE
    ensures IsCInt(n)
  {
    var u: int := b[0] as int + 256 * (b[1] as int) + 0x1_0000 * (b[2] as int) + 0x100_0000 * (b[3] as int);
    if u >= 0x8000_0000 then u - 0x1_0000_0000 else u
  }

  /** Loading what was stored gives the int back ... */
  lemma DecodeEncode(n: int)
    requires IsCInt(n)
    ensures DecodeInt(EncodeInt(n)) == n
  {
  }

  /** ... and every 4 bytes are the image of the int they load to. */
  lemma EncodeDecode(b: seq<byte>)
    requires |b| == JOBLEN_SIZE
    ensures EncodeInt(DecodeInt(b)) == b
  {
    var q2: int := b[2] as int + 256 * (b[3] as int);
    var q1: int := b[1] as int + 256 * q2;
    var u: int := b[0] as int + 256 * q1;
    assert u / 256 == q1 && u % 256 == b[0];
    assert q1 / 256 == q2 && q1 % 256 == b[1];
    assert q2 / 256 == b[3] && q2 % 256 == b[2];
  }

  /** The bytes `strlen` counts: everything before the first NUL. */
  function CStr(s: seq<byte>): (c: seq<byte>)
    ensures c <= s && 0 !in c
    ensures |c| < |s| ==> s[|c|] == 0
  {
    if s == [] || s[0] == 0 then [] else [s[0]] + CStr(s[1..])
  }
}
