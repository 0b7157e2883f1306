/**
 * Block access over a memory-mapped file (db/mmap/mmap.go): the mapping is
 * a byte array, blocks are addressed by number times the block size, and a
 * cursor `ReadOffset` serves sequential reads.
 */
module MmapFile {
  import opened GoInts
  import opened GoCopy
  import opened Wrappers

  /** `io.EOF`, and `ErrRead` ("missing bytes when reading"). */
  datatype ReadError = EOF | ErrRead

  class Mmap {
    /** The mapped bytes. */
    const data: array<byte>
    var blockSize: int
    var ReadOffset: int

    /** A mapping as `Open` leaves it: the cursor at the start. */
    constructor (data: array<byte>, blockSize: int)
      ensures this.data == data && this.blockSize == blockSize && ReadOffset == 0
    {
      this.data := data;
      this.blockSize := blockSize;
      ReadOffset := 0;
    }

    /**
     * `Write(number, src)`: nothing when block `number` starts at or past
     * the end of the mapping; otherwise as much of `src` as fits from the
     * block's start on, with no other byte changed.
     */
    method Write(number: int, src: seq<byte>) returns (n: nat)
      requires number * blockSize < data.Length ==> number * blockSize >= 0
      modifies data
      ensures var off := number * blockSize;
        off >= data.Length ==> n == 0 && data[..] == old(data[..])
      ensures var off := number * blockSize;
        off < data.Length ==> (
          n == Min(|src|, data.Length - off) &&
          data[..] == old(data[..])[..off] + src[..n] + old(data[..])[off + n..])
    {
      var off := number * blockSize;
      if off >= data.Length {
        return 0;
      }
      n := CopyInto(data, off, src);
    }

    /**
     * `Read(number, dst)`: nothing when block `number` starts at or past the
     * end of the mapping; otherwise as many bytes from the block's start as
     * `dst` holds, into its front. The mapping is changed only if `dst` is
     * the mapping itself.
     */
    method Read(number: int, dst: array<byte>) returns (n: nat)
      requires number * blockSize < data.Length ==> number * blockSize >= 0
      modifies dst
      ensures var off := number * blockSize;
        off >= data.Length ==> n == 0 && dst[..] == old(dst[..])
      ensures var off := number * blockSize;
        off < data.Length ==> (
          n == Min(dst.Length, data.Length - off) &&
          dst[..] == old(data[..])[off..off + n] + old(dst[..])[n..])
      ensures dst != data ==> data[..] == old(data[..])
    {
      var off := number * blockSize;
      if off >= data.Length {
        return 0;
      }
      n := CopyInto(dst, 0, data[off..]);
    }

    /**
     * `ReadTo(dst)`: all or nothing. `EOF`, with the cursor and `dst` as they
     * were, when `dst` does not fit before the end of the mapping; otherwise
     * `dst` is filled from the cursor on and the cursor moves past it.
     * `ErrRead` is never returned: once the bound check passes, the copy
     * always fills `dst`.
     */
    method ReadTo(dst: array<byte>) returns (err: Option<ReadError>)
      requires ReadOffset + dst.Length <= data.Length ==> ReadOffset >= 0
      modifies this, dst
      ensures blockSize == old(blockSize)
      ensures old(ReadOffset) + dst.Length > data.Length ==>
        err == Some(EOF) && ReadOffset == old(ReadOffset) && dst[..] == old(dst[..])
      ensures old(ReadOffset) + dst.Length <= data.Length ==> (
        err == None && ReadOffset == old(ReadOffset) + dst.Length &&
        dst[..] == old(data[..])[old(ReadOffset)..old(ReadOffset) + dst.Length])
      ensures dst != data ==> data[..] == old(data[..])
    {
      if ReadOffset + dst.Length > data.Length {
        return Some(EOF);
      }
      var n := CopyInto(dst, 0, data[ReadOffset..]);
      assert n == dst.Length;
      ReadOffset := ReadOffset + n;
      err := None;
    }

    /**
     * `ReadN(offset, n)`: `offset` is not used. A fresh buffer of `n`
     * blocks, read from the cursor by `ReadTo`, whose error is dropped: at
     * the end of the mapping the buffer stays zero and the cursor stays put.
     */
    method ReadN(offset: int, n: int) returns (buf: array<byte>, err: Option<ReadError>)
      requires n * blockSize >= 0
      requires ReadOffset + n * blockSize <= data.Length ==> ReadOffset >= 0
      modifies this
      ensures fresh(buf) && buf.Length == n * blockSize && err == None && blockSize == old(blockSize)
      ensures old(ReadOffset) + buf.Length > data.Length ==>
        ReadOffset == old(ReadOffset) && buf[..] == Zeros(buf.Length)
      ensures old(ReadOffset) + buf.Length <= data.Length ==>
        ReadOffset == old(ReadOffset) + buf.Length &&
        buf[..] == data[old(ReadOffset)..old(ReadOffset) + buf.Length]
      ensures data[..] == old(data[..])
    {
      buf := new byte[n * blockSize](_ => 0);
      Pow256Values();
      var ignored := ReadTo(buf);
      err := None;
    }
  }

  /** A block written with bytes that fit reads back as those bytes. */
  method WriteThenRead(m: Mmap, number: int, src: seq<byte>) returns (got: seq<byte>)
    requires 0 <= number * m.blockSize && number * m.blockSize + |src| <= m.data.Length
    modifies m.data
    ensures got == src
  {
    var w := m.Write(number, src);
    var dst := new byte[|src|](_ => 0);
    Pow256Values();
    var r := m.Read(number, dst);
    if |src| > 0 {
      var off := number * m.blockSize;
      assert m.data[..][off..off + |src|] == src;
    }
    got := dst[..];
  }

  /** Two cursor reads that fit take adjacent ranges of the mapping, in order. */
  method ReadToTwice(m: Mmap, a: array<byte>, b: array<byte>)
    requires m.ReadOffset >= 0 && m.ReadOffset + a.Length + b.Length <= m.data.Length
    requires a != b && a != m.data && b != m.data
    modifies m, a, b
    ensures m.ReadOffset == old(m.ReadOffset) + a.Length + b.Length
    ensures a[..] + b[..] == m.data[old(m.ReadOffset)..m.ReadOffset]
  {
    var e1 := m.ReadTo(a);
    var e2 := m.ReadTo(b);
  }
}
