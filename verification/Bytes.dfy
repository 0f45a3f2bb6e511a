/** Byte buffers and the C library calls on them. */
module Bytes {
  newtype byte = x: int | 0 <= x < 256

  function Zeros(n: nat): (z: seq<byte>)
    ensures |z| == n && forall k :: 0 <= k < n ==> z[k] == 0
  {
    seq(n, k => 0)
  }

  method MemSet(a: array<byte>, len: nat)
    requires len <= a.Length
    modifies a
    ensures a[..] == Zeros(len) + old(a[..])[len..]
  {
    for i := 0 to len
      invariant forall k :: 0 <= k < i ==> a[k] == 0
      invariant a[i..] == old(a[i..])
    {
      a[i] := 0;
    }
    assert a[..len] == Zeros(len);
    assert a[..] == a[..len] + a[len..];
  }

  method MemCpy(dst: array<byte>, at: nat, src: array<byte>, from: nat, len: nat)
    requires dst != src && at + len <= dst.Length && from + len <= src.Length
    modifies dst
    ensures dst[..] == old(dst[..])[..at] + src[from..from + len] + old(dst[..])[at + len..]
  {
    for i := 0 to len
      invariant dst[..] == old(dst[..])[..at] + src[from..from + i] + old(dst[..])[at + i..]
    {
      dst[at + i] := src[from + i];
    }
  }
}
