/**
 * A stored key/value pair and its bucket record (db/buckets/kv.go): the
 * value's length as a 4-byte big-endian `uint32`, then the value; the key
 * is not part of the record.
 */
module BucketKV {
  import opened GoInts

  /** The record `Bytes` produces for a value. The length prefix is `uint32(len(val))`. */
  function Record(val: seq<byte>): (r: seq<byte>)
    ensures |r| == 4 + |val| && r[4..] == val
    ensures FromBigEndian(r[..4]) == |val| % TwoTo32
  {
    Pow256Values();
    var prefix := BigEndian(|val| % TwoTo32, 4);
    FromBigEndianOfBigEndian(|val| % TwoTo32, 4);
    assert (prefix + val)[..4] == prefix;
    prefix + val
  }

  /** What `FromBytes` keeps of its input: everything after the first four bytes. */
  function Payload(raw: seq<byte>): seq<byte> {
    if |raw| <= 4 then [] else raw[4..]
  }

  /** Reading a record back yields the value, whatever its length. */
  lemma {:induction false} PayloadOfRecord(val: seq<byte>)
    ensures Payload(Record(val)) == val
  {
  }

  class KV {
    var Key: seq<byte>
    var Val: seq<byte>

    /** `NewKV(key, val)`; a Go string is its sequence of bytes. */
    constructor NewKV(key: seq<byte>, val: seq<byte>)
      ensures Key == key && Val == val
    {
      Key := key;
      Val := val;
    }

    /** Replaces `Val` with the input minus its first four bytes, whatever they hold. */
    method FromBytes(raw: seq<byte>)
      modifies this
      ensures Val == Payload(raw) && Key == old(Key)
      ensures |raw| >= 4 ==> raw == raw[..4] + Val
    {
      Val := Payload(raw);
    }

    /** The record of `Val`: its length prefix, then `Val` itself. */
    function Bytes(): (r: seq<byte>)
      reads this
      ensures |r| == 4 + |Val| && r[4..] == Val
      ensures FromBigEndian(r[..4]) == |Val| % TwoTo32
    {
      Record(Val)
    }
  }

  /** `FromBytes(Bytes())` restores the value on a fresh pair and keeps the key. */
  method RecordRoundTrip(key: seq<byte>, val: seq<byte>) returns (back: seq<byte>, k: seq<byte>)
    ensures back == val && k == key
  {
    var kv := new KV.NewKV(key, val);
    var raw := kv.Bytes();
    kv.FromBytes(raw);
    back, k := kv.Val, kv.Key;
  }
}
