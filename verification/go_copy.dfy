/** Go's built-in `copy` from a byte slice into a byte array. */
module GoCopy {
  import opened GoInts

  function Min(a: int, b: int): (m: int)
    ensures m <= a && m <= b && (m == a || m == b)
  {
    if a <= b then a else b
  }

  /** The bytes of `dst` after `copy(dst, src)`: `src`'s bytes over the front of `dst`, as many as both hold. */
  function Copied(dst: seq<byte>, src: seq<byte>): (r: seq<byte>)
    ensures |r| == |dst|
    decreases |dst|
  {
    if dst == [] || src == [] then dst else [src[0]] + Copied(dst[1..], src[1..])
  }

  /** `Copied` is the first `n` bytes of the source followed by the rest of the destination, `n` the shorter length. */
  lemma {:induction false} CopiedSplits(dst: seq<byte>, src: seq<byte>)
    ensures var n := Min(|dst|, |src|); Copied(dst, src) == src[..n] + dst[n..]
    decreases |dst|
  {
    if dst != [] && src != [] {
      CopiedSplits(dst[1..], src[1..]);
      var n := Min(|dst|, |src|);
      assert src[..n] == [src[0]] + src[1..][..n - 1];
      assert dst[n..] == dst[1..][n - 1..];
    }
  }

  /**
   * `copy(dst[at:], src)`: as many bytes as both sides hold, placed at
   * `at`; the rest of `dst` is unchanged. `src` is read before any byte is
   * written, so a source taken from `dst` itself is copied as it was.
   */
  method CopyInto(dst: array<byte>, at: nat, src: seq<byte>) returns (n: nat)
    requires at <= dst.Length
    modifies dst
    ensures n == Min(|src|, dst.Length - at)
    ensures dst[..] == old(dst[..])[..at] + src[..n] + old(dst[..])[at + n..]
  {
    n := Min(|src|, dst.Length - at);
    forall i | 0 <= i < n {
      dst[at + i] := src[i];
    }
    assert dst[..] == old(dst[..])[..at] + src[..n] + old(dst[..])[at + n..];
  }
}
