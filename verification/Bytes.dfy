/** Bytes and the few sequence helpers shared by the models of the stream filters. */
module Bytes {

  type byte = bv8

  datatype Option<+T> = None | Some(value: T)

  /** The number a byte stands for. */
  function Val(b: byte): (n: nat)
    ensures n < 256
  {
    b as nat
  }

  lemma NextByte(b: byte)
    requires Val(b) < 255
    ensures Val(b + 1) == Val(b) + 1
  {
  }

  /** The byte that stands for a number. */
  function ToByte(n: nat): (b: byte)
    requires n < 256
    ensures Val(b) == n
  {
    if n == 0 then 0 else
      NextByte(ToByte(n - 1));
      ToByte(n - 1) + 1
  }

  /** Concatenation of chunks, first chunk first. */
  function Flatten<T>(chunks: seq<seq<T>>): seq<T> {
    if chunks == [] then [] else Flatten(chunks[..|chunks| - 1]) + chunks[|chunks| - 1]
  }

  /** How often `b` occurs. */
  function Count(s: seq<byte>, b: byte): nat {
    if s == [] then 0 else Count(s[..|s| - 1], b) + if s[|s| - 1] == b then 1 else 0
  }

  lemma {:induction false} CountConcat(s: seq<byte>, t: seq<byte>, b: byte)
    ensures Count(s + t, b) == Count(s, b) + Count(t, b)
  {
    if t == [] {
      assert s + t == s;
    } else {
      assert (s + t)[..|s + t| - 1] == s + t[..|t| - 1];
      CountConcat(s, t[..|t| - 1], b);
    }
  }

  lemma CountOne(b: byte, c: byte)
    ensures Count([b], c) == if b == c then 1 else 0
  {
    var s := [b];
    assert s[|s| - 1] == b && s[..|s| - 1] == [];
  }

  /** Index of the first occurrence of `b`, or the length when there is none. */
  function IndexOf(s: seq<byte>, b: byte): (k: nat)
    ensures k <= |s|
    ensures k < |s| ==> s[k] == b
    ensures forall i :: 0 <= i < k ==> s[i] != b
  {
    if s == [] || s[0] == b then 0 else 1 + IndexOf(s[1..], b)
  }

  lemma IndexOfIs(s: seq<byte>, b: byte, k: nat)
    requires k <= |s|
    requires forall i :: 0 <= i < k ==> s[i] != b
    requires k < |s| ==> s[k] == b
    ensures IndexOf(s, b) == k
  {
  }

  /** The first `n` bytes of a buffer. */
  ghost function Prefix(a: array<byte>, n: nat): seq<byte>
    reads a
  {
    if n <= a.Length then a[..n] else []
  }

  /** `memchr`: position of the first `b` in `buf[off..off + len]`, or `off + len`. */
  method MemChr(buf: array<byte>, off: nat, b: byte, len: nat) returns (at: nat)
    requires off + len <= buf.Length
    ensures off <= at <= off + len
    ensures b !in buf[off..at]
    ensures at < off + len ==> buf[at] == b
    ensures at - off == IndexOf(buf[off..off + len], b)
  {
    at := off;
    while at < off + len && buf[at] != b
      invariant off <= at <= off + len
      invariant forall i :: off <= i < at ==> buf[i] != b
    {
      at := at + 1;
    }
    IndexOfIs(buf[off..off + len], b, at - off);
  }

  /** `memmove`: the source and the destination may overlap. */
  method MemMove(dst: array<byte>, to: nat, src: array<byte>, from: nat, len: nat)
    requires to + len <= dst.Length && from + len <= src.Length
    modifies dst
    ensures dst[..to + len] == old(dst[..to]) + old(src[from..from + len])
    ensures dst[to + len..] == old(dst[to + len..])
    ensures src != dst || to <= from ==> src[from + len..] == old(src[from + len..])
  {
    forall k | 0 <= k < len {
      dst[to + k] := src[from + k];
    }
  }
}
