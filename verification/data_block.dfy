/**
 * A data block (block/block.go): a 4096-byte page made of an 8-byte header
 * (the number of keys and the bytes used) and 4088 bytes of data, filled
 * from the front by partial writes.
 */
module DataBlock {
  import opened GoInts
  import opened GoCopy

  const BlockSize: nat := 4096
  const HeaderSize: nat := 8
  const DataSize: nat := BlockSize - HeaderSize

  class Block {
    /** `Header.Len`: the number of keys; no operation here changes it. */
    var Len: nat
    /** `Header.Size`: the data bytes in use. */
    var Size: nat
    const Data: array<byte>

    /** The header fields are `uint32` values and the data area has its fixed size. */
    predicate Valid()
      reads this
    {
      Data.Length == DataSize && Len < TwoTo32 && Size < TwoTo32
    }

    /** `Block{}`: an empty header and zeroed data. */
    constructor ()
      ensures Valid() && Len == 0 && Size == 0 && fresh(Data) && Data[..] == Zeros(DataSize)
    {
      Len, Size := 0, 0;
      Data := new byte[DataSize](_ => 0);
      Pow256Values();
    }

    /**
     * `Write(data)`: nothing when the block is full; otherwise as much of
     * `data` as fits, placed at `Size`, which moves past it. No byte outside
     * the written range changes, and a block that was within its data area
     * stays within it.
     */
    method Write(data: seq<byte>) returns (n: nat)
      requires Valid()
      modifies this, Data
      ensures Valid() && Len == old(Len)
      ensures old(Size) >= DataSize ==> n == 0 && Size == old(Size) && Data[..] == old(Data[..])
      ensures old(Size) < DataSize ==> (
        n == Min(|data|, DataSize - old(Size)) && Size == old(Size) + n &&
        Data[..] == old(Data[..])[..old(Size)] + data[..n] + old(Data[..])[old(Size) + n..])
      ensures old(Size) <= DataSize ==> Size <= DataSize
    {
      if Size >= Data.Length {
        return 0;
      }
      n := CopyInto(Data, Size, data);
      Size := Size + n;
    }

    /**
     * `Read(offset, dst)`: nothing at or past the end of the data area;
     * otherwise as many bytes from `offset` as `dst` holds, into its front.
     * The block itself is never changed unless `dst` is its own data area.
     */
    method Read(offset: int, dst: array<byte>) returns (n: nat)
      requires Valid() && offset >= 0
      modifies dst
      ensures offset >= DataSize ==> n == 0 && dst[..] == old(dst[..])
      ensures offset < DataSize ==> (
        n == Min(dst.Length, DataSize - offset) &&
        dst[..] == old(Data[..])[offset..offset + n] + old(dst[..])[n..])
      ensures dst != Data ==> Data[..] == old(Data[..])
    {
      if offset >= Data.Length {
        return 0;
      }
      n := CopyInto(dst, 0, Data[offset..]);
    }
  }

  /**
   * A write that fits, read back from where it started into a buffer of its
   * length, gives the written bytes.
   */
  method WriteThenRead(b: Block, data: seq<byte>) returns (got: seq<byte>)
    requires b.Valid() && b.Size + |data| <= DataSize
    modifies b, b.Data
    ensures got == data
  {
    var at := b.Size;
    var n := b.Write(data);
    var dst := new byte[|data|](_ => 0);
    Pow256Values();
    var m := b.Read(at, dst);
    if at < DataSize {
      assert b.Data[..][at..at + m] == data;
    }
    got := dst[..];
  }

  /** "foo" written into an empty block and read back from offset 0 into three bytes is "foo". */
  method WriteReadFoo() returns (bar: seq<byte>)
    ensures bar == [102, 111, 111]
  {
    var b := new Block();
    bar := WriteThenRead(b, [102, 111, 111]);
  }
}
