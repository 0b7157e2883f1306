/**
 * The operations of Go's `*os.File` that the store uses, with the file's
 * contents as a byte sequence.
 */
module OsFile {
  import opened GoInts
  import opened Wrappers

  datatype IoError = EOF | UnexpectedEOF | NegativeOffset

  /** The file grown with zero bytes to at least `n` bytes. */
  function Extend(f: seq<byte>, n: nat): (r: seq<byte>)
    ensures |r| == if n <= |f| then |f| else n
    ensures r[..|f|] == f && forall i :: |f| <= i < |r| ==> r[i] == 0
  {
    if n <= |f| then f else f + Zeros(n - |f|)
  }

  /**
   * `File.WriteAt(data, off)`: places `data` at `[off, off+len(data))`,
   * growing the file with zero bytes when it ends before that; an empty
   * write leaves the file as it is.
   */
  function WriteAt(f: seq<byte>, off: nat, data: seq<byte>): (r: seq<byte>)
    ensures |data| == 0 ==> r == f
    ensures |data| > 0 ==> |r| == if off + |data| <= |f| then |f| else off + |data|
    ensures |data| > 0 ==> r[off..off + |data|] == data
    ensures forall i :: 0 <= i < |r| && !(off <= i < off + |data|) ==>
              r[i] == if i < |f| then f[i] else 0
  {
    if |data| == 0 then f
    else
      var g := Extend(f, off + |data|);
      g[..off] + data + g[off + |data|..]
  }

  /** `File.Truncate(n)`: the file cut or zero-extended to exactly `n` bytes. */
  function Truncate(f: seq<byte>, n: nat): (r: seq<byte>)
    ensures |r| == n
    ensures forall i :: 0 <= i < n ==> r[i] == if i < |f| then f[i] else 0
  {
    if n <= |f| then f[..n] else Extend(f, n)
  }

  /**
   * `File.ReadAt` into a fresh buffer of `size` bytes: the bytes at
   * `[off, off+size)`, `io.EOF` when the file ends first, an error for a
   * negative offset.
   */
  function ReadAt(f: seq<byte>, off: int, size: nat): (r: Result<seq<byte>, IoError>)
    ensures off < 0 <==> r == Err(NegativeOffset)
    ensures r.Ok? <==> 0 <= off && (size == 0 || off + size <= |f|)
    ensures r.Ok? ==> |r.value| == size && forall i :: 0 <= i < size ==> r.value[i] == f[off + i]
  {
    if off < 0 then Err(NegativeOffset)
    else if size == 0 then Ok([])
    else if off + size <= |f| then Ok(f[off..off + size])
    else Err(EOF)
  }

  /** Reading back what `WriteAt` placed gives exactly those bytes. */
  lemma {:induction false} ReadAtAfterWriteAt(f: seq<byte>, off: nat, data: seq<byte>)
    ensures ReadAt(WriteAt(f, off, data), off, |data|) == Ok(data)
  {
  }

  /** A write leaves every earlier range that it does not overlap readable as before. */
  lemma {:induction false} ReadAtAcrossWriteAt(f: seq<byte>, off: nat, data: seq<byte>, roff: nat, size: nat)
    requires roff + size <= |f|
    requires roff + size <= off || off + |data| <= roff
    ensures ReadAt(WriteAt(f, off, data), roff, size) == ReadAt(f, roff, size)
  {
    var g := WriteAt(f, off, data);
    if size > 0 {
      assert g[roff..roff + size] == f[roff..roff + size];
    }
  }
}
