/**
 * The byte copies the job lists make with memcpy: a copy is a loop storing
 * one byte at a time, specified by the buffer it leaves behind.
 */
module Mem {
  import opened Bytes

  /** buf with the bytes b stored from offset o on. */
  function Poke(buf: seq<byte>, o: nat, b: seq<byte>): (s: seq<byte>)
    requires o + |b| <= |buf|
    ensures |s| == |buf| && s[o .. o + |b|] == b
  {
    buf[..o] + b + buf[o + |b|..]
  }

  /** Each byte of a poked buffer comes from b inside the stored range and from buf outside it. */
  lemma PokeAt(buf: seq<byte>, o: nat, b: seq<byte>, i: nat)
    requires o + |b| <= |buf| && i < |buf|
    ensures Poke(buf, o, b)[i] == if o <= i < o + |b| then b[i - o] else buf[i]
  {
    var s := Poke(buf, o, b);
    if i < o {
      assert s[i] == (buf[..o] + b)[i];
    } else if i < o + |b| {
      assert s[i] == (buf[..o] + b)[i];
    } else {
      assert s[i] == buf[o + |b|..][i - o - |b|];
    }
  }

  lemma PokeOutside(buf: seq<byte>, o: nat, b: seq<byte>, i: nat)
    requires o + |b| <= |buf| && i < |buf| && !(o <= i < o + |b|)
    ensures Poke(buf, o, b)[i] == buf[i]
  {
    PokeAt(buf, o, b, i);
  }

  /** Storing as many bytes as buf holds from offset 0 replaces buf. */
  lemma PokeWhole(buf: seq<byte>, b: seq<byte>)
    requires |b| == |buf|
    ensures Poke(buf, 0, b) == b
  {
    assert buf[..0] + b + buf[|b|..] == b;
  }

  /** Storing x and then y right after it is storing x + y. */
  lemma PokeThen(buf: seq<byte>, o: nat, x: seq<byte>, y: seq<byte>)
    requires o + |x| + |y| <= |buf|
    ensures Poke(Poke(buf, o, x), o + |x|, y) == Poke(buf, o, x + y)
  {
    var s1 := Poke(Poke(buf, o, x), o + |x|, y);
    var s2 := Poke(buf, o, x + y);
    forall i | 0 <= i < |buf|
      ensures s1[i] == s2[i]
    {
      PokeAt(Poke(buf, o, x), o + |x|, y, i);
      PokeAt(buf, o, x, i);
      PokeAt(buf, o, x + y, i);
    }
  }

  /** Storing y after offset o + |x| and then x at o is storing x + y. */
  lemma PokeBefore(buf: seq<byte>, o: nat, x: seq<byte>, y: seq<byte>)
    requires o + |x| + |y| <= |buf|
    ensures Poke(Poke(buf, o + |x|, y), o, x) == Poke(buf, o, x + y)
  {
    var s1 := Poke(Poke(buf, o + |x|, y), o, x);
    var s2 := Poke(buf, o, x + y);
    forall i | 0 <= i < |buf|
      ensures s1[i] == s2[i]
    {
      PokeAt(Poke(buf, o + |x|, y), o, x, i);
      PokeAt(buf, o + |x|, y, i);
      PokeAt(buf, o, x + y, i);
    }
  }

  /** memcpy(dst + o, src, |src|). */
  method CopyIn(dst: array<byte>, o: nat, src: seq<byte>)
    requires o + |src| <= dst.Length
    modifies dst
    ensures dst[..] == Poke(old(dst[..]), o, src)
  {
    var i := 0;
    while i < |src|
      invariant 0 <= i <= |src|
      invariant forall k :: 0 <= k < dst.Length ==> dst[k] == if o <= k < o + i then src[k - o] else old(dst[k])
    {
      dst[o + i] := src[i];
      i := i + 1;
    }
    forall k | 0 <= k < dst.Length
      ensures dst[..][k] == Poke(old(dst[..]), o, src)[k]
    {
      PokeAt(old(dst[..]), o, src, k);
    }
  }

  /** memcpy(dst + o, src + from, n) between two distinct buffers. */
  method Copy(dst: array<byte>, o: nat, src: array<byte>, from: nat, n: nat)
    requires dst != src && o + n <= dst.Length && from + n <= src.Length
    modifies dst
    ensures dst[..] == Poke(old(dst[..]), o, old(src[from .. from + n]))
  {
    CopyIn(dst, o, src[from .. from + n]);
  }
}
