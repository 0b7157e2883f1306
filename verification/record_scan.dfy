/**
 * The recovery scan of a bucket file (db/buckets/iterator.go): records
 * are read front to back until a zero length prefix or the end of the
 * data; the sum of their sizes (prefix included) is where writing resumes.
 */
module BucketIterator {
  import opened GoInts
  import opened Wrappers
  import opened BucketKV

  /** The two errors `binary.Read` reports for a short read. */
  datatype ScanError = EOF | UnexpectedEOF

  /** The results of `Iterate`: records (nil on error), total size, error. */
  datatype Scan = Scan(records: seq<seq<byte>>, total: int, err: Option<ScanError>)

  /** `io.ReadFull` reports EOF when nothing was left, UnexpectedEOF when some bytes were. */
  function ShortRead(left: nat): ScanError {
    if left == 0 then EOF else UnexpectedEOF
  }

  /** `int64(size + 4)` with the addition done in `uint32`, so it wraps. */
  function RecordCost(size: nat): nat {
    (size + 4) % TwoTo32
  }

  /** The scan of `rest`, having already collected `acc` and counted `total`. */
  function ScanFrom(rest: seq<byte>, total: int, acc: seq<seq<byte>>): Scan
    decreases |rest|
  {
    if |rest| < 4 then Scan([], total, Some(ShortRead(|rest|)))
    else
      var size := FromBigEndian(rest[..4]);
      if size == 0 then Scan(acc, total, None)
      else
        var total' := total + RecordCost(size);
        if |rest| - 4 < size then Scan([], total', Some(ShortRead(|rest| - 4)))
        else
          var acc' := acc + [rest[4..4 + size]];
          if |rest| == 4 + size then Scan(acc', total', None)
          else ScanFrom(rest[4 + size..], total', acc')
  }

  function ScanAll(data: seq<byte>): Scan {
    ScanFrom(data, 0, [])
  }

  /** The bytes of several records one after the other. */
  function Records(vals: seq<seq<byte>>): (r: seq<byte>)
    ensures |r| == Lengths(vals)
  {
    if vals == [] then [] else Record(vals[0]) + Records(vals[1..])
  }

  /** The sum over `vals` of `len(val) + 4`. */
  function Lengths(vals: seq<seq<byte>>): nat {
    if vals == [] then 0 else |vals[0]| + 4 + Lengths(vals[1..])
  }

  /** The sum of the (wrapping) `size + 4` over `vals`, as the scan counts it. */
  function Costs(vals: seq<seq<byte>>): nat {
    if vals == [] then 0 else RecordCost(|vals[0]|) + Costs(vals[1..])
  }

  /** Each record can be written and read back exactly (length below 2^32 - 4, not empty). */
  predicate Storable(vals: seq<seq<byte>>) {
    forall i :: 0 <= i < |vals| ==> 0 < |vals[i]| < TwoTo32 - 4
  }

  lemma {:induction false} CostsOfStorable(vals: seq<seq<byte>>)
    requires Storable(vals)
    ensures Costs(vals) == Lengths(vals)
  {
    if vals != [] {
      assert Storable(vals[1..]) by {
        forall i | 0 <= i < |vals| - 1 ensures 0 < |vals[1..][i]| < TwoTo32 - 4 {
          assert vals[1..][i] == vals[i + 1];
        }
      }
      CostsOfStorable(vals[1..]);
    }
  }

  /** One step of the scan over a non-empty remainder. */
  lemma {:induction false} ScanStep(rest: seq<byte>, total: int, acc: seq<seq<byte>>)
    requires |rest| >= 4
    ensures var size := FromBigEndian(rest[..4]);
      ScanFrom(rest, total, acc) ==
        if size == 0 then Scan(acc, total, None)
        else if |rest| - 4 < size then Scan([], total + RecordCost(size), Some(ShortRead(|rest| - 4)))
        else if |rest| == 4 + size then Scan(acc + [rest[4..4 + size]], total + RecordCost(size), None)
        else ScanFrom(rest[4 + size..], total + RecordCost(size), acc + [rest[4..4 + size]])
  {
  }

  /** How the first record of `Records(vals)` reads, whatever follows the records. */
  lemma {:induction false} RecordsHead(vals: seq<seq<byte>>, after: seq<byte>)
    requires vals != []
    ensures var d := Records(vals) + after; var v := vals[0];
      |d| >= 4 + |v| && FromBigEndian(d[..4]) == |v| % TwoTo32 &&
      d[4..4 + |v|] == v && d[4 + |v|..] == Records(vals[1..]) + after
  {
    var x := Records(vals[1..]) + after;
    assert Records(vals) + after == Record(vals[0]) + x;
    RecordThen(Record(vals[0]), x, vals[0]);
  }

  /** A record `r` of `v` followed by `x`: the prefix, then `v`, then `x`. */
  lemma {:induction false} RecordThen(r: seq<byte>, x: seq<byte>, v: seq<byte>)
    requires |r| == 4 + |v| && r[4..] == v && FromBigEndian(r[..4]) == |v| % TwoTo32
    ensures var d := r + x;
      |d| >= 4 + |v| && FromBigEndian(d[..4]) == |v| % TwoTo32 &&
      d[4..4 + |v|] == v && d[4 + |v|..] == x
  {
    var d := r + x;
    assert d[..4] == r[..4];
    assert d[4..4 + |v|] == r[4..];
  }

  lemma {:induction false} StorableTail(vals: seq<seq<byte>>)
    requires vals != [] && Storable(vals)
    ensures Storable(vals[1..])
  {
    forall i | 0 <= i < |vals| - 1 ensures 0 < |vals[1..][i]| < TwoTo32 - 4 {
      assert vals[1..][i] == vals[i + 1];
    }
  }

  /** A length prefix that fits is followed by the record it describes. */
  lemma {:induction false} RecordAt(rest: seq<byte>)
    requires |rest| >= 4 && 0 < FromBigEndian(rest[..4]) <= |rest| - 4
    ensures var size := FromBigEndian(rest[..4]);
      size < TwoTo32 && Record(rest[4..4 + size]) == rest[..4 + size]
  {
    var size := FromBigEndian(rest[..4]);
    var rec := rest[4..4 + size];
    Pow256Values();
    BigEndianOfFromBigEndian(rest[..4]);
    assert rest[..4 + size] == rest[..4] + rec;
    assert Record(rec)[..4] == BigEndian(size, 4);
  }

  /**
   * What a successful scan from `rest` promises: the records it returns
   * extend `acc`, the new ones are the first records of `rest`, in order,
   * and the total counts `size + 4` for each of them.
   */
  predicate Parsed(rest: seq<byte>, total: int, acc: seq<seq<byte>>, s: Scan) {
    |acc| <= |s.records| && s.records[..|acc|] == acc &&
    var found := s.records[|acc|..];
    Records(found) <= rest && s.total == total + Costs(found) &&
    forall i :: 0 <= i < |found| ==> 0 < |found[i]| < TwoTo32
  }

  /** `Parsed` carries over from the rest of the data to one more record before it. */
  lemma {:induction false} ParsedCons(rest: seq<byte>, total: int, acc: seq<seq<byte>>, s: Scan)
    requires |rest| >= 4 && 0 < FromBigEndian(rest[..4]) < |rest| - 4
    requires var size := FromBigEndian(rest[..4]);
      Parsed(rest[4 + size..], total + RecordCost(size), acc + [rest[4..4 + size]], s)
    ensures Parsed(rest, total, acc, s)
  {
    var size := FromBigEndian(rest[..4]);
    var rec := rest[4..4 + size];
    var acc' := acc + [rec];
    RecordAt(rest);
    var found' := s.records[|acc'|..];
    assert s.records[..|acc|] == s.records[..|acc'|][..|acc|];
    assert s.records[|acc|..] == [rec] + found';
    assert ([rec] + found')[1..] == found';
    assert Records([rec] + found') == Record(rec) + Records(found');
    assert rest == rest[..4 + size] + rest[4 + size..];
  }

  /** A successful scan collects records in file order. */
  lemma {:induction false} ScanParses(rest: seq<byte>, total: int, acc: seq<seq<byte>>)
    requires ScanFrom(rest, total, acc).err == None
    ensures Parsed(rest, total, acc, ScanFrom(rest, total, acc))
    decreases |rest|
  {
    ScanStep(rest, total, acc);
    var size := FromBigEndian(rest[..4]);
    var s := ScanFrom(rest, total, acc);
    if size == 0 {
      ParsedNothing(rest, total, acc);
    } else if |rest| == 4 + size {
      ParsedLast(rest, total, acc);
    } else {
      ScanParses(rest[4 + size..], total + RecordCost(size), acc + [rest[4..4 + size]]);
      ParsedCons(rest, total, acc, s);
    }
  }
  /** A scan that stops where it starts has parsed nothing new. */
  lemma {:induction false} ParsedNothing(rest: seq<byte>, total: int, acc: seq<seq<byte>>)
    ensures Parsed(rest, total, acc, Scan(acc, total, None))
  {
    assert acc[|acc|..] == [] && acc[..|acc|] == acc;
  }

  /** A record that fills the rest of the data is parsed as the last one. */
  lemma {:induction false} ParsedLast(rest: seq<byte>, total: int, acc: seq<seq<byte>>)
    requires |rest| >= 4 && 0 < FromBigEndian(rest[..4]) && |rest| == 4 + FromBigEndian(rest[..4])
    ensures var size := FromBigEndian(rest[..4]);
      Parsed(rest, total, acc, Scan(acc + [rest[4..4 + size]], total + RecordCost(size), None))
  {
    var size := FromBigEndian(rest[..4]);
    var rec := rest[4..4 + size];
    var all := acc + [rec];
    RecordAt(rest);
    assert all[..|acc|] == acc && all[|acc|..] == [rec];
    assert Records([rec]) == Record(rec) + Records([]);
    assert rest[..4 + size] == rest;
  }

  /** A zero length prefix ends the scan successfully with what was collected. */
  lemma {:induction false} ZeroPrefixStops(rest: seq<byte>, total: int, acc: seq<seq<byte>>)
    requires |rest| >= 4 && rest[..4] == [0, 0, 0, 0]
    ensures ScanFrom(rest, total, acc) == Scan(acc, total, None)
  {
    FromBigEndianZero(rest[..4]);
    ScanStep(rest, total, acc);
  }

  /** The scan consumes the first of several stored records as one step. */
  lemma {:induction false} ScanFirstRecord(vals: seq<seq<byte>>, after: seq<byte>, total: int, acc: seq<seq<byte>>)
    requires vals != [] && Storable(vals)
    ensures var v := vals[0]; var data := Records(vals) + after;
      data[4 + |v|..] == Records(vals[1..]) + after &&
      ScanFrom(data, total, acc) ==
        if |data| == 4 + |v| then Scan(acc + [v], total + |v| + 4, None)
        else ScanFrom(data[4 + |v|..], total + |v| + 4, acc + [v])
  {
    RecordsHead(vals, after);
    assert 0 < |vals[0]| < TwoTo32 - 4;
    ScanOver(Records(vals) + after, vals[0], total, acc);
  }

  /** A record `v` at the front of `data`, with its length prefix, is read as one step. */
  lemma {:induction false} ScanOver(data: seq<byte>, v: seq<byte>, total: int, acc: seq<seq<byte>>)
    requires 0 < |v| < TwoTo32 - 4 && |data| >= 4 + |v|
    requires FromBigEndian(data[..4]) == |v| % TwoTo32 && data[4..4 + |v|] == v
    ensures ScanFrom(data, total, acc) ==
        if |data| == 4 + |v| then Scan(acc + [v], total + |v| + 4, None)
        else ScanFrom(data[4 + |v|..], total + |v| + 4, acc + [v])
  {
    assert RecordCost(|v|) == |v| + 4;
    ScanStep(data, total, acc);
  }

  /**
   * Scanning a sequence of records written by `Bytes` returns those values,
   * in order, with the total equal to the number of bytes.
   */
  lemma {:induction false} ScanRecords(vals: seq<seq<byte>>, total: int, acc: seq<seq<byte>>)
    requires vals != [] && Storable(vals)
    ensures ScanFrom(Records(vals), total, acc) == Scan(acc + vals, total + Lengths(vals), None)
    decreases |vals|
  {
    var v := vals[0];
    if |vals| > 1 {
      ScanSkipsFirst(vals, total, acc);
      StorableTail(vals);
      ScanRecords(vals[1..], total + |v| + 4, acc + [v]);
      assert acc + [v] + vals[1..] == acc + vals;
    } else {
      ScanLast(vals, total, acc);
    }
  }

  /** Of two or more stored records, the first is read and the scan goes on with the rest. */
  lemma {:induction false} ScanSkipsFirst(vals: seq<seq<byte>>, total: int, acc: seq<seq<byte>>)
    requires |vals| > 1 && Storable(vals)
    ensures ScanFrom(Records(vals), total, acc) == ScanFrom(Records(vals[1..]), total + |vals[0]| + 4, acc + [vals[0]])
  {
    assert Records(vals) + [] == Records(vals);
    assert Records(vals[1..]) + [] == Records(vals[1..]);
    assert |Records(vals[1..])| > 0;
    ScanFirstRecord(vals, [], total, acc);
  }

  /** A single stored record is read and ends the scan. */
  lemma {:induction false} ScanLast(vals: seq<seq<byte>>, total: int, acc: seq<seq<byte>>)
    requires |vals| == 1 && Storable(vals)
    ensures ScanFrom(Records(vals), total, acc) == Scan(acc + vals, total + Lengths(vals), None)
  {
    assert Records(vals) + [] == Records(vals);
    assert vals[1..] == [];
    ScanFirstRecord(vals, [], total, acc);
    assert acc + [vals[0]] == acc + vals;
  }

  /** With a zero prefix somewhere after it, the first stored record is read as one step. */
  lemma {:induction false} SkipFirst(vals: seq<seq<byte>>, tail: seq<byte>, total: int, acc: seq<seq<byte>>)
    requires Storable(vals) && vals != []
    ensures ScanFrom(Records(vals) + [0, 0, 0, 0] + tail, total, acc) ==
      ScanFrom(Records(vals[1..]) + [0, 0, 0, 0] + tail, total + |vals[0]| + 4, acc + [vals[0]])
  {
        var v := vals[0];
        var after := [0, 0, 0, 0] + tail;
        var data := Records(vals) + after;
        assert Records(vals) + [0, 0, 0, 0] + tail == data;
        ScanFirstRecord(vals, after, total, acc);
        assert |data| > 4 + |v|;
        assert Records(vals[1..]) + [0, 0, 0, 0] + tail == Records(vals[1..]) + after;
  }
  /**
   * After a zero length prefix nothing is read: records followed by four
   * zero bytes scan to the same result whatever comes after them.
   */
  lemma {:induction false} ScanStopsAtZeroPrefix(vals: seq<seq<byte>>, tail: seq<byte>, total: int, acc: seq<seq<byte>>)
    requires Storable(vals)
    ensures ScanFrom(Records(vals) + [0, 0, 0, 0] + tail, total, acc) == Scan(acc + vals, total + Lengths(vals), None)
    decreases |vals|
  {
    if vals == [] {
      StopsAtOnce(tail, total, acc);
      assert acc + vals == acc;
    } else {
      StorableTail(vals);
      ScanStopsAtZeroPrefix(vals[1..], tail, total + |vals[0]| + 4, acc + [vals[0]]);
      StopsAfterFirst(vals, tail, total, acc);
    }
  }

  /** Once the records after the first scan as claimed, so do all of them. */
  lemma {:induction false} StopsAfterFirst(vals: seq<seq<byte>>, tail: seq<byte>, total: int, acc: seq<seq<byte>>)
    requires vals != [] && Storable(vals)
    requires ScanFrom(Records(vals[1..]) + [0, 0, 0, 0] + tail, total + |vals[0]| + 4, acc + [vals[0]])
      == Scan(acc + [vals[0]] + vals[1..], total + |vals[0]| + 4 + Lengths(vals[1..]), None)
    ensures ScanFrom(Records(vals) + [0, 0, 0, 0] + tail, total, acc) == Scan(acc + vals, total + Lengths(vals), None)
  {
    SkipFirst(vals, tail, total, acc);
    assert acc + [vals[0]] + vals[1..] == acc + vals;
  }

  /** With no records, the zero prefix comes first and the scan stops at once. */
  lemma {:induction false} StopsAtOnce(tail: seq<byte>, total: int, acc: seq<seq<byte>>)
    ensures ScanFrom(Records([]) + [0, 0, 0, 0] + tail, total, acc) == Scan(acc, total, None)
  {
    var data := [0, 0, 0, 0] + tail;
    assert data[..4] == [0, 0, 0, 0];
    ZeroPrefixStops(data, total, acc);
    assert Records([]) + [0, 0, 0, 0] + tail == data;
  }

  /** The total a scan reports never falls below where it started. */
  lemma {:induction false} ScanTotalNonNegative(rest: seq<byte>, total: int, acc: seq<seq<byte>>)
    ensures ScanFrom(rest, total, acc).total >= total
    decreases |rest|
  {
    if |rest| >= 4 {
      var size := FromBigEndian(rest[..4]);
      if size != 0 && |rest| - 4 >= size && |rest| != 4 + size {
        ScanTotalNonNegative(rest[4 + size..], total + RecordCost(size), acc + [rest[4..4 + size]]);
      }
    }
  }

  /**
   * `Iterate` over the bucket's contents: the KV records (only `Val` set),
   * the total size and the error, as `ScanAll` describes them.
   */
  method Iterate(data: seq<byte>) returns (keys: seq<KV>, totalSize: int, err: Option<ScanError>)
    ensures var s := ScanAll(data);
      |keys| == |s.records| && totalSize == s.total && err == s.err &&
      forall i :: 0 <= i < |keys| ==> fresh(keys[i]) && keys[i].Val == s.records[i] && keys[i].Key == []
  {
    keys, totalSize, err := [], 0, None;
    ghost var vals: seq<seq<byte>> := [];
    var rest := data;
    while true
      invariant |keys| == |vals|
      invariant forall i :: 0 <= i < |keys| ==> fresh(keys[i]) && keys[i].Val == vals[i] && keys[i].Key == []
      invariant ScanFrom(rest, totalSize, vals) == ScanAll(data)
      decreases |rest|
    {
      if |rest| < 4 {
        return [], totalSize, Some(ShortRead(|rest|));
      }
      ScanStep(rest, totalSize, vals);
      var size := FromBigEndian(rest[..4]);
      if size == 0 {
        break;
      }
      totalSize := totalSize + RecordCost(size);
      if |rest| - 4 < size {
        return [], totalSize, Some(ShortRead(|rest| - 4));
      }
      var key := new KV.NewKV([], rest[4..4 + size]);
      keys := keys + [key];
      vals := vals + [key.Val];
      if |rest| == 4 + size {
        break;
      }
      rest := rest[4 + size..];
    }
  }
}
