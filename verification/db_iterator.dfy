/**
 * The older copy of the recovery scan (db/iterator.go): the same
 * length-prefixed records, collected as keys holding their bytes and
 * their size.
 */
module DbIterator {
  import opened GoInts
  import opened Wrappers
  import opened BucketIterator

  /** A recovered record: its bytes and its `uint32` length prefix. */
  datatype Key = Key(data: seq<byte>, size: nat)

  /**
   * `Iterate` over a bucket's contents: one key per record, in file order,
   * the total size and the error, as `ScanAll` describes them.
   */
  method Iterate(data: seq<byte>) returns (keys: seq<Key>, totalSize: int, err: Option<ScanError>)
    ensures var s := ScanAll(data);
      |keys| == |s.records| && totalSize == s.total && err == s.err &&
      forall i :: 0 <= i < |keys| ==> keys[i].data == s.records[i] && keys[i].size == |s.records[i]|
  {
    keys, totalSize, err := [], 0, None;
    ghost var vals: seq<seq<byte>> := [];
    var rest := data;
    while true
      invariant |keys| == |vals|
      invariant forall i :: 0 <= i < |keys| ==> keys[i].data == vals[i] && keys[i].size == |vals[i]|
      invariant ScanFrom(rest, totalSize, vals) == ScanAll(data)
      decreases |rest|
    {
      if |rest| < 4 {
        return [], totalSize, Some(ShortRead(|rest|));
      }
      ScanStep(rest, totalSize, vals);
      var size := FromBigEndian(rest[..4]);
      if size == 0 {
        break;
      }
      totalSize := totalSize + RecordCost(size);
      if |rest| - 4 < size {
        return [], totalSize, Some(ShortRead(|rest| - 4));
      }
      var key := Key(rest[4..4 + size], size);
      keys := keys + [key];
      vals := vals + [key.data];
      if |rest| == 4 + size {
        break;
      }
      rest := rest[4 + size..];
    }
  }

  /**
   * Scanning records written one after the other gives one key per value,
   * in order, each with its value's length, and the total is the number of
   * bytes written.
   */
  method IterateWritten(vals: seq<seq<byte>>) returns (keys: seq<Key>, totalSize: int, err: Option<ScanError>)
    requires vals != [] && Storable(vals)
    ensures err == None && totalSize == |Records(vals)| && |keys| == |vals|
    ensures forall i :: 0 <= i < |keys| ==> keys[i] == Key(vals[i], |vals[i]|)
  {
    ScanRecords(vals, 0, []);
    assert [] + vals == vals;
    keys, totalSize, err := Iterate(Records(vals));
  }
}
