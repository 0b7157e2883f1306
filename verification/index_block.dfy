/**
 * An index block (index/block.go): a 4096-byte page made of a 4-byte
 * header (the write offset, a `uint32`) and 4092 bytes of data, filled
 * from the front by writes that either fit whole or are refused.
 */
module IndexBlock {
  import opened GoInts
  import opened GoCopy

  const BlockSize: nat := 4096
  /** The size of a header holding one `uint32`. */
  const HeaderSize: nat := 4
  const DataSize: nat := BlockSize - HeaderSize

  class Block {
    /** `Header.Offset`: the data bytes in use. */
    var Offset: nat
    const Data: array<byte>

    /** The data area has its fixed size and the offset lies within it. */
    predicate Valid()
      reads this
    {
      Data.Length == DataSize && Offset <= DataSize
    }

    /** `Block{}`: offset zero and zeroed data. */
    constructor ()
      ensures Valid() && Offset == 0 && fresh(Data) && Data[..] == Zeros(DataSize)
    {
      Offset := 0;
      Data := new byte[DataSize](_ => 0);
      Pow256Values();
    }

    /**
     * `Write(data)`: refused (0 bytes, nothing changed) when `data` does not
     * fit after `Offset`; otherwise all of it is placed at `Offset`, which
     * moves past it, and no other byte changes.
     */
    method Write(data: seq<byte>) returns (n: nat)
      requires Valid()
      modifies this, Data
      ensures Valid()
      ensures old(Offset) + |data| > DataSize ==> n == 0 && Offset == old(Offset) && Data[..] == old(Data[..])
      ensures old(Offset) + |data| <= DataSize ==> (
        n == |data| && Offset == old(Offset) + n &&
        Data[..] == old(Data[..])[..old(Offset)] + data + old(Data[..])[old(Offset) + n..])
    {
      if Offset + |data| > Data.Length {
        return 0;
      }
      n := CopyInto(Data, Offset, data);
      assert data[..n] == data;
      Offset := Offset + n;
    }
  }

  /** Two writes that both fit land side by side: the first bytes, then the second. */
  method WriteTwice(b: Block, x: seq<byte>, y: seq<byte>)
    requires b.Valid() && b.Offset + |x| + |y| <= DataSize
    modifies b, b.Data
    ensures b.Valid() && b.Offset == old(b.Offset) + |x| + |y|
    ensures b.Data[old(b.Offset)..b.Offset] == x + y
  {
    var n := b.Write(x);
    var m := b.Write(y);
  }

  /** A write that would overflow leaves a full-enough block unchanged however many bytes still fit. */
  method OverflowRefused() returns (n: nat, off: nat)
    ensures n == 0 && off == DataSize - 1
  {
    var b := new Block();
    var first := b.Write(Zeros(DataSize - 1));
    n := b.Write([1, 2]);
    off := b.Offset;
  }
}
