/**
 * The native-order codec of lib/bitbox: an offset-tracking read buffer
 * (buffer.go) and `Encode`/`Decode` (bitbox.go) for byte slices, pointers
 * to fixed-width integers and booleans, and nil pointers, on a
 * little-endian machine.
 */
module LibBitbox {
  import opened GoInts
  import opened GoCopy
  import opened Wrappers

  /** A buffer over `data`, read from `off` on. */
  class Buffer {
    const data: seq<byte>
    var off: int

    /** The offset lies within the data, as every slicing of `data[off:]` demands. */
    predicate Valid()
      reads this
    {
      0 <= off <= |data|
    }

    /** `NewBuffer(data)`: reading starts at the first byte. */
    constructor (data: seq<byte>)
      ensures this.data == data && off == 0 && Valid()
    {
      this.data := data;
      off := 0;
    }

    /** `Len()`: how many bytes are left to read. */
    function Len(): (n: nat)
      reads this
      requires Valid()
      ensures n == |data| - off
    {
      |data[off..]|
    }

    /** `Data()`: the unread bytes; what was read before them and they make up `data`. */
    function Data(): (r: seq<byte>)
      reads this
      requires Valid()
      ensures |r| == Len() && data == data[..off] + r
    {
      data[off..]
    }

    /**
     * `Copy(dst)`: as many unread bytes as `dst` holds go to its front, and
     * the offset moves past exactly those.
     */
    method Copy(dst: array<byte>) returns (n: nat)
      requires Valid()
      modifies this, dst
      ensures Valid() && n == Min(dst.Length, old(Len())) && off == old(off) + n
      ensures old(Data()) == dst[..n] + Data() && dst[n..] == old(dst[n..])
    {
      n := CopyInto(dst, 0, data[off..]);
      off := off + n;
    }

    /**
     * `Take(num)`: the next `num` bytes, with the offset past them. Only
     * bytes within the buffer's length are modelled; Go's slice expression
     * may also reach into the spare capacity.
     */
    method Take(num: int) returns (r: seq<byte>)
      requires 0 <= off && 0 <= num && off + num <= |data|
      modifies this
      ensures Valid() && off == old(off) + num && |r| == num && old(Data()) == r + Data()
    {
      var start := off;
      off := off + num;
      r := data[start..off];
    }

    /** `Consume(n)`: moves the offset by `n`, unchecked. */
    method Consume(n: int)
      modifies this
      ensures off == old(off) + n
    {
      off := off + n;
    }

    /**
     * `Decode(objects...)`: hands the buffer to `Decode` without the
     * objects, so nothing is read and every destination keeps its value.
     */
    method Decode(objects: seq<Dest>) returns (out: seq<Dest>)
      modifies this
      ensures out == objects && off == old(off)
      decreases 0, 2
    {
      var none := _default.Decode(this, []);
      out := objects;
    }
  }

  /** An argument to `Encode`: a byte slice, a pointer to an integer or bool, or a nil pointer. */
  datatype Value = Bytes(b: seq<byte>) | Fixed(kind: Kind, v: int) | Bool(flag: bool) | Nil
  {
    predicate WellTyped() {
      Fixed? ==> InRange(kind, v)
    }
  }

  /** A destination of `Decode`: a `*[]byte`, or a pointer to an integer or bool, with its current value. */
  datatype Dest = ByteSliceDest(b: seq<byte>) | FixedDest(kind: Kind, v: int) | BoolDest(flag: bool)
  {
    predicate WellTyped() {
      FixedDest? ==> InRange(kind, v)
    }
  }

  predicate AllWellTyped(xs: seq<Value>) {
    forall i :: 0 <= i < |xs| ==> xs[i].WellTyped()
  }

  predicate AllDestsWellTyped(ds: seq<Dest>) {
    forall i :: 0 <= i < |ds| ==> ds[i].WellTyped()
  }

  /** A bool's one byte in memory. */
  function BoolByte(flag: bool): byte {
    if flag then 1 else 0
  }

  /** The in-memory bytes of a destination's current value. */
  function RawBytes(d: Dest): (r: seq<byte>)
    requires d.WellTyped() && !d.ByteSliceDest?
  {
    if d.FixedDest? then LittleEndian(Raw(d.kind, d.v), Width(d.kind)) else [BoolByte(d.flag)]
  }

  /** The value whose in-memory bytes are `raw`, in a destination shaped like `d`. */
  function FromRawBytes(d: Dest, raw: seq<byte>): (r: Dest)
    requires d.WellTyped() && !d.ByteSliceDest? && |raw| == |RawBytes(d)|
    ensures r.WellTyped() && (r.FixedDest? <==> d.FixedDest?) && (r.FixedDest? ==> r.kind == d.kind)
  {
    if d.FixedDest? then FixedDest(d.kind, FromRaw(d.kind, FromLittleEndian(raw))) else BoolDest(raw[0] != 0)
  }

  /** One argument's bytes: a length-prefixed byte slice, or a value's raw bytes. */
  function EncodeOne(x: Value): (r: seq<byte>)
    requires x.WellTyped()
  {
    match x
    case Bytes(b) => LittleEndian(|b| % TwoTo32, 4) + b
    case Fixed(k, v) => LittleEndian(Raw(k, v), Width(k))
    case Bool(flag) => [BoolByte(flag)]
    case Nil => []
  }

  /** `Encode(objects...)`: the arguments' encodings, one after the other. */
  function Encode(xs: seq<Value>): (r: seq<byte>)
    requires AllWellTyped(xs)
    decreases |xs|
  {
    if xs == [] then [] else EncodeOne(xs[0]) + Encode(xs[1..])
  }

  /** Encoding two argument lists is encoding each, one after the other. */
  lemma {:induction false} EncodeAppend(xs: seq<Value>, ys: seq<Value>)
    requires AllWellTyped(xs) && AllWellTyped(ys)
    ensures AllWellTyped(xs + ys) && Encode(xs + ys) == Encode(xs) + Encode(ys)
    decreases |xs|
  {
    assert AllWellTyped(xs + ys);
    if xs == [] {
      assert xs + ys == ys;
    } else {
      assert (xs + ys)[1..] == xs[1..] + ys;
      EncodeAppend(xs[1..], ys);
    }
  }

  /** A nil pointer adds no bytes wherever it appears. */
  lemma {:induction false} NilAddsNothing(xs: seq<Value>, ys: seq<Value>)
    requires AllWellTyped(xs) && AllWellTyped(ys)
    ensures AllWellTyped(xs + [Nil] + ys) && Encode(xs + [Nil] + ys) == Encode(xs + ys)
  {
    assert Encode([Nil]) == [] by {
      assert [Nil][1..] == [];
    }
    EncodeAppend(xs, [Nil]);
    var xn := xs + [Nil];
    assert Encode(xn) == Encode(xs);
    EncodeAppend(xn, ys);
    EncodeAppend(xs, ys);
    assert xn + ys == xs + [Nil] + ys;
  }

  /**
   * A byte slice is stored as its length, a `uint32` in native order, then
   * its bytes: reading the first four bytes back gives the length.
   */
  lemma {:induction false} BytesLayout(b: seq<byte>)
    requires |b| < TwoTo32
    ensures var r := Encode([Bytes(b)]);
      |r| == 4 + |b| && FromLittleEndian(r[..4]) == |b| && r[4..] == b
  {
    Pow256Values();
    var r := Encode([Bytes(b)]);
    assert [Bytes(b)][1..] == [];
    assert r == EncodeOne(Bytes(b)) + Encode([]);
    assert |b| % TwoTo32 == |b|;
    assert r == LittleEndian(|b|, 4) + b;
    assert r[..4] == LittleEndian(|b|, 4);
    FromLittleEndianOfLittleEndian(|b|, 4);
  }

  /**
   * One destination read from the unread bytes `rest`: an integer or bool
   * has up to its width of bytes copied over the front of its in-memory
   * bytes, and that many are consumed. A byte slice is left as it is and
   * nothing is consumed.
   */
  function DecodeOne(rest: seq<byte>, d: Dest): (r: (Dest, nat))
    requires d.WellTyped()
    ensures r.1 <= |rest| && r.0.WellTyped()
  {
    if d.ByteSliceDest? then (d, 0)
    else
      var raw := RawBytes(d);
      var n := Min(|raw|, |rest|);
      (FromRawBytes(d, Copied(raw, rest)), n)
  }

  /** `Decode` over every destination in turn, with the number of bytes consumed. */
  function DecodeAll(rest: seq<byte>, ds: seq<Dest>): (r: (seq<Dest>, nat))
    requires AllDestsWellTyped(ds)
    ensures |r.0| == |ds| && r.1 <= |rest|
    decreases |ds|
  {
    if ds == [] then ([], 0)
    else
      var head := DecodeOne(rest, ds[0]);
      var tail := DecodeAll(rest[head.1..], ds[1..]);
      ([head.0] + tail.0, head.1 + tail.1)
  }

  /**
   * `Decode(buf, objects...)`: each destination in order, as `DecodeAll`
   * describes it over the unread bytes; the offset moves past the bytes
   * consumed.
   */
  method Decode(buf: Buffer, objects: seq<Dest>) returns (out: seq<Dest>)
    requires objects != [] ==> buf.Valid()
    requires AllDestsWellTyped(objects)
    modifies buf
    ensures objects == [] ==> out == [] && buf.off == old(buf.off)
    ensures objects != [] ==> (
      var r := DecodeAll(buf.data[old(buf.off)..], objects);
      out == r.0 && buf.off == old(buf.off) + r.1)
    decreases |objects|, 1
  {
    out := [];
    if objects == [] {
      return;
    }
    ghost var start := buf.off;
    ghost var want := DecodeAll(buf.data[start..], objects);
    var todo := objects;
    while todo != []
      invariant buf.Valid() && start <= buf.off && AllDestsWellTyped(todo)
      invariant DecodedSoFar(buf.Data(), todo, out, want, buf.off - start)
      decreases |todo|
    {
      ghost var at := buf.off;
      ghost var rest := buf.Data();
      var decoded := DecodeItem(buf, todo[0]);
      DecodedOneMore(rest, todo, out, want, at - start, decoded, buf.off - at);
      assert rest[buf.off - at..] == buf.Data();
      out := out + [decoded];
      todo := todo[1..];
    }
    assert out + [] == out;
  }

  /**
   * The loop invariant of `Decode`: what is decoded so far, then the
   * destinations still to do read from the unread bytes, together give
   * `want`, having consumed `used` bytes before them.
   */
  ghost predicate DecodedSoFar(rest: seq<byte>, todo: seq<Dest>, out: seq<Dest>, want: (seq<Dest>, nat), used: int)
    requires AllDestsWellTyped(todo)
  {
    var r := DecodeAll(rest, todo);
    want.0 == out + r.0 && want.1 == used + r.1
  }

  lemma {:induction false} DecodedOneMore(rest: seq<byte>, todo: seq<Dest>, out: seq<Dest>, want: (seq<Dest>, nat), used: int, d: Dest, n: nat)
    requires todo != [] && AllDestsWellTyped(todo)
    requires DecodedSoFar(rest, todo, out, want, used)
    requires DecodeOne(rest, todo[0]) == (d, n)
    ensures n <= |rest| && AllDestsWellTyped(todo[1..])
    ensures DecodedSoFar(rest[n..], todo[1..], out + [d], want, used + n)
  {
    DecodeAllCons(rest, todo, d, n);
    var t := DecodeAll(rest[n..], todo[1..]);
    assert out + ([d] + t.0) == out + [d] + t.0;
  }

  /** One destination of `Decode`, as `DecodeOne` describes it over the unread bytes. */
  method DecodeItem(buf: Buffer, d: Dest) returns (decoded: Dest)
    requires buf.Valid() && d.WellTyped()
    modifies buf
    ensures buf.Valid() && (decoded, buf.off - old(buf.off)) == DecodeOne(old(buf.Data()), d)
    decreases 1, 0
  {
    if d.ByteSliceDest? {
      var l := buf.Decode([FixedDest(Uint32, 0)]);
      var taken := buf.Take(l[0].v);
      decoded := ByteSliceDest(d.b + taken);
      assert decoded == d;
    } else {
      var raw := RawBytes(d);
      var mem := new byte[|raw|];
      forall j | 0 <= j < |raw| {
        mem[j] := raw[j];
      }
      assert mem[..] == raw;
      ghost var unread := buf.Data();
      var n := buf.Copy(mem);
      assert mem[..] == mem[..n] + mem[n..];
      assert mem[..] == unread[..n] + raw[n..];
      CopiedSplits(raw, unread);
      decoded := FromRawBytes(d, mem[..]);
    }
  }

  /** `DecodeAll` of a non-empty list: the first destination, then the rest from the bytes it left. */
  lemma {:induction false} DecodeAllCons(rest: seq<byte>, ds: seq<Dest>, d: Dest, n: nat)
    requires ds != [] && AllDestsWellTyped(ds) && DecodeOne(rest, ds[0]) == (d, n)
    ensures n <= |rest| && AllDestsWellTyped(ds[1..])
    ensures var tail := DecodeAll(rest[n..], ds[1..]); DecodeAll(rest, ds) == ([d] + tail.0, n + tail.1)
  {
    var tail := DecodeAll(rest[n..], ds[1..]);
    assert DecodeAll(rest, ds) == ([DecodeOne(rest, ds[0]).0] + tail.0, DecodeOne(rest, ds[0]).1 + tail.1);
  }

  /** The destinations `Decode` is given for an encoded list: one of each argument's kind, zeroed. */
  function Shape(x: Value): Dest
    requires x.Fixed? || x.Bool?
  {
    if x.Fixed? then FixedDest(x.kind, 0) else BoolDest(false)
  }

  /** What a destination should hold after decoding an argument. */
  function Expected(x: Value): Dest
    requires x.Fixed? || x.Bool?
  {
    if x.Fixed? then FixedDest(x.kind, x.v) else BoolDest(x.flag)
  }

  predicate Scalars(xs: seq<Value>) {
    forall i :: 0 <= i < |xs| ==> (xs[i].Fixed? || xs[i].Bool?) && xs[i].WellTyped()
  }

  function Shapes(xs: seq<Value>): (ds: seq<Dest>)
    requires Scalars(xs)
    ensures |ds| == |xs| && AllDestsWellTyped(ds)
    decreases |xs|
  {
    if xs == [] then [] else [Shape(xs[0])] + Shapes(xs[1..])
  }

  function Expecteds(xs: seq<Value>): (ds: seq<Dest>)
    requires Scalars(xs)
    ensures |ds| == |xs|
    decreases |xs|
  {
    if xs == [] then [] else [Expected(xs[0])] + Expecteds(xs[1..])
  }

  /** Decoding one argument's encoding, whatever follows it, into a zeroed destination of its kind gives back the argument. */
  lemma {:induction false} DecodeOneOfEncodeOne(x: Value, post: seq<byte>)
    requires (x.Fixed? || x.Bool?) && x.WellTyped()
    ensures Shape(x).WellTyped() && DecodeOne(EncodeOne(x) + post, Shape(x)) == (Expected(x), |EncodeOne(x)|)
  {
    var d := Shape(x);
    var rest := EncodeOne(x) + post;
    var raw := RawBytes(d);
    assert |raw| == |EncodeOne(x)|;
    var n := Min(|raw|, |rest|);
    assert rest[..n] + raw[n..] == EncodeOne(x);
    CopiedSplits(raw, rest);
    if x.Fixed? {
      FromLittleEndianOfLittleEndian(Raw(x.kind, x.v), Width(x.kind));
      FromRawOfRaw(x.kind, x.v);
    }
  }

  /**
   * Integers and bools encoded one after the other, whatever follows them,
   * decode into zeroed destinations of their kinds as the original values,
   * consuming exactly their encoding.
   */
  lemma {:induction false} DecodeAllOfEncode(xs: seq<Value>, post: seq<byte>)
    requires Scalars(xs) && AllWellTyped(xs)
    ensures DecodeAll(Encode(xs) + post, Shapes(xs)) == (Expecteds(xs), |Encode(xs)|)
    decreases |xs|
  {
    if xs != [] {
      EncodedInFront(xs, post);
      var tail := xs[1..];
      DecodeAllOfEncode(tail, post);
      ConsStep(xs[0], Encode(tail) + post, Shapes(tail), Expecteds(tail), |Encode(tail)|);
    }
  }

  /** A non-empty argument list, its encoding, its destinations and its expected values, split at the first argument. */
  lemma {:induction false} EncodedInFront(xs: seq<Value>, post: seq<byte>)
    requires xs != [] && Scalars(xs) && AllWellTyped(xs)
    ensures AllWellTyped(xs[1..]) && Scalars(xs[1..])
    ensures Encode(xs) + post == EncodeOne(xs[0]) + (Encode(xs[1..]) + post)
    ensures |Encode(xs)| == |EncodeOne(xs[0])| + |Encode(xs[1..])|
    ensures Shapes(xs) == [Shape(xs[0])] + Shapes(xs[1..])
    ensures Expecteds(xs) == [Expected(xs[0])] + Expecteds(xs[1..])
  {
    assert AllWellTyped(xs[1..]);
    assert Encode(xs) == EncodeOne(xs[0]) + Encode(xs[1..]);
  }

  /** One more argument in front: its zeroed destination in front reads it back, then the rest as before. */
  lemma {:induction false} ConsStep(x: Value, rest: seq<byte>, ds: seq<Dest>, out: seq<Dest>, m: nat)
    requires (x.Fixed? || x.Bool?) && x.WellTyped() && AllDestsWellTyped(ds)
    requires DecodeAll(rest, ds) == (out, m)
    ensures AllDestsWellTyped([Shape(x)] + ds)
    ensures DecodeAll(EncodeOne(x) + rest, [Shape(x)] + ds) == ([Expected(x)] + out, |EncodeOne(x)| + m)
  {
    DecodeOneOfEncodeOne(x, rest);
    DecodedInFront(EncodeOne(x), rest, Shape(x), ds, Expected(x), out, m);
  }

  /** A destination that reads exactly the bytes `e` in front of a list that decodes from `rest` decodes with it. */
  lemma {:induction false} DecodedInFront(e: seq<byte>, rest: seq<byte>, d: Dest, ds: seq<Dest>, got: Dest, out: seq<Dest>, m: nat)
    requires d.WellTyped() && AllDestsWellTyped(ds)
    requires DecodeOne(e + rest, d) == (got, |e|) && DecodeAll(rest, ds) == (out, m)
    ensures AllDestsWellTyped([d] + ds)
    ensures DecodeAll(e + rest, [d] + ds) == ([got] + out, |e| + m)
  {
    var all := [d] + ds;
    assert all[0] == d && all[1..] == ds;
    assert (e + rest)[|e|..] == rest;
  }

  /** `Encode` then `Decode` into destinations of the same kinds gives back every integer and bool, consuming everything. */
  method RoundTrip(xs: seq<Value>) returns (out: seq<Dest>, used: int)
    requires Scalars(xs) && AllWellTyped(xs)
    ensures out == Expecteds(xs) && used == |Encode(xs)|
  {
    var buf := new Buffer(Encode(xs));
    out := Decode(buf, Shapes(xs));
    DecodeAllOfEncode(xs, []);
    assert Encode(xs) + [] == buf.data[0..];
    used := buf.off;
  }

  /**
   * As written, a `*[]byte` destination gets nothing: the length is never
   * read, because `Buffer.Decode` drops its objects, so `Take(0)` appends
   * no bytes. An encoded `[7]` decodes into an empty slice, with nothing
   * consumed.
   */
  lemma {:induction false} ByteSliceDecodesNothing()
    ensures var data := Encode([Bytes([7])]);
      data == [1, 0, 0, 0, 7] &&
      DecodeAll(data, [ByteSliceDest([])]) == ([ByteSliceDest([])], 0)
  {
    Pow256Values();
    var data := Encode([Bytes([7])]);
    assert [Bytes([7])][1..] == [];
    assert data == EncodeOne(Bytes([7])) + Encode([]);
    assert |[7]| % TwoTo32 == 1;
    assert LittleEndian(1, 4) == [1, 0, 0, 0] by {
      assert LittleEndian(1, 4) == [1] + LittleEndian(0, 3);
      assert LittleEndian(0, 3) == [0] + LittleEndian(0, 2);
      assert LittleEndian(0, 2) == [0] + LittleEndian(0, 1);
      assert LittleEndian(0, 1) == [0] + LittleEndian(0, 0);
    }
    assert [ByteSliceDest([])][1..] == [];
    assert DecodeOne(data, ByteSliceDest([])) == (ByteSliceDest([]), 0);
    assert DecodeAll(data[0..], []) == ([], 0);
    assert [ByteSliceDest([])] + [] == [ByteSliceDest([])];
  }

  /**
   * A `*[]byte` destination as `Decode` evidently means to fill it, with
   * `Buffer.Decode` passing its objects on: the `uint32` length is read
   * like any other integer, then that many bytes are appended. `None`
   * where `Take` would panic because the bytes are not there.
   */
  function DecodeBytesIntended(rest: seq<byte>, cur: seq<byte>): (r: Option<(seq<byte>, nat)>)
    ensures r.Some? ==> r.value.1 <= |rest| && |r.value.0| >= |cur| && r.value.0[..|cur|] == cur
  {
    var (l, n) := DecodeOne(rest, FixedDest(Uint32, 0));
    if n + l.v <= |rest| then Some((cur + rest[n..n + l.v], n + l.v)) else None
  }

  /** With the intended `*[]byte` decoding, a byte slice round-trips, whatever follows it, and exactly its encoding is consumed. */
  lemma {:induction false} DecodeBytesIntendedOfEncode(b: seq<byte>, post: seq<byte>, cur: seq<byte>)
    requires |b| < TwoTo32
    ensures DecodeBytesIntended(Encode([Bytes(b)]) + post, cur) == Some((cur + b, 4 + |b|))
  {
    var e := Encode([Bytes(b)]);
    var prefix := EncodeOne(Fixed(Uint32, |b|));
    BytesPrefix(b);
    assert e + post == prefix + (b + post);
    DecodeOneOfEncodeOne(Fixed(Uint32, |b|), b + post);
    assert (prefix + (b + post))[4..4 + |b|] == b;
  }

  /** A byte slice's encoding is its length encoded as a `uint32`, then its bytes. */
  lemma {:induction false} BytesPrefix(b: seq<byte>)
    requires |b| < TwoTo32
    ensures Fixed(Uint32, |b|).WellTyped()
    ensures var prefix := EncodeOne(Fixed(Uint32, |b|)); |prefix| == 4 && Encode([Bytes(b)]) == prefix + b
  {
    Pow256Values();
    assert [Bytes(b)][1..] == [];
    assert Encode([Bytes(b)]) == EncodeOne(Bytes(b)) + Encode([]);
    assert |b| % TwoTo32 == |b|;
  }
}
