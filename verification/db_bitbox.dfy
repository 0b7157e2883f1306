/**
 * The big-endian codec of db/bitbox.go: `Encode` of integers, integer
 * slices and arrays and `Encoder` structs into a buffer; `Decode` of
 * pointers to integers, integer slices and arrays and of `Decoder` structs
 * from a `bytes.Buffer`; and `Decode2`, which splits a byte slice into
 * consecutive chunks.
 */
module DbBitbox {
  import opened GoInts
  import opened GoCopy
  import opened Wrappers

  /** One more than the largest `int64`: every Go length is below it. */
  const TwoTo63: nat := TwoTo64 / 2

  /** Every value in `vs` is one of kind `k`. */
  predicate AllInRange(k: Kind, vs: seq<int>) {
    forall i :: 0 <= i < |vs| ==> InRange(k, vs[i])
  }

  lemma {:induction false} ZeroInRange(k: Kind)
    ensures InRange(k, 0)
  {
    Pow256Values();
  }

  /**
   * A zeroed collection of `n` integer values of any kind, as `make` gives
   * it. These are values, which decoding may make negative, not the bytes of
   * `GoInts.Zeros`.
   */
  function ZeroVals(n: nat): (r: seq<int>)
    ensures |r| == n && forall i :: 0 <= i < n ==> r[i] == 0
  {
    seq(n, _ => 0)
  }

  // ---------------------------------------------------------------- encoding

  /** An argument to `Encode`. */
  datatype Elem =
    | Scalar(kind: Kind, v: int)          // an integer, or a pointer to one
    | Slice(kind: Kind, vs: seq<int>)     // an integer slice, or a pointer to one
    | Array(kind: Kind, vs: seq<int>)     // an integer array, or a pointer to one
    | EncoderStruct(encoded: seq<byte>)   // a struct whose `Encode()` returns `encoded`
    | Silent                              // a pointer to any other struct, or a bool, int or string
  {
    predicate WellTyped() {
      match this
      case Scalar(k, v) => InRange(k, v)
      case Slice(k, vs) => AllInRange(k, vs) && |vs| < TwoTo63
      case Array(k, vs) => AllInRange(k, vs) && |vs| < TwoTo63
      case EncoderStruct(bs) => |bs| < TwoTo63
      case Silent => true
    }
  }

  predicate AllWellTyped(es: seq<Elem>) {
    forall i :: 0 <= i < |es| ==> es[i].WellTyped()
  }

  /** `write(buf, int64(n))`: a length as eight big-endian bytes. */
  function LengthHeader(n: nat): (r: seq<byte>)
    requires n < TwoTo63
    ensures |r| == 8
  {
    Pow256Values();
    BigEndian(Raw(Int64, n), 8)
  }

  /** The bytes `count` values of kind `k` take (`count * Width(k)`), added up one value at a time. */
  function ByteSize(k: Kind, count: nat): nat
    decreases count
  {
    if count == 0 then 0 else Width(k) + ByteSize(k, count - 1)
  }

  /** `binary.Write` of integers of kind `k`: each one's big-endian bytes, in order. */
  function Elements(k: Kind, vs: seq<int>): (r: seq<byte>)
    requires AllInRange(k, vs)
    ensures |r| == ByteSize(k, |vs|)
    decreases |vs|
  {
    if vs == [] then [] else BigEndian(Raw(k, vs[0]), Width(k)) + Elements(k, vs[1..])
  }

  /**
   * `encodeSlice`: an empty collection as a zero length; otherwise the
   * length (left out for an array) and then the elements.
   */
  function EncodeSlice(k: Kind, vs: seq<int>, isArray: bool): (r: seq<byte>)
    requires AllInRange(k, vs) && |vs| < TwoTo63
  {
    if |vs| == 0 then LengthHeader(0)
    else (if isArray then [] else LengthHeader(|vs|)) + Elements(k, vs)
  }

  lemma {:induction false} BytesInRange(bs: seq<byte>)
    ensures AllInRange(Uint8, bs)
  {
    Pow256Values();
  }

  /**
   * One argument's bytes: an integer's big-endian bytes; a slice, an array
   * or the bytes an `Encoder` returns through `encodeSlice`; nothing for
   * any other struct pointer or kind.
   */
  function EncodeElem(e: Elem): (r: seq<byte>)
    requires e.WellTyped()
  {
    match e
    case Scalar(k, v) => BigEndian(Raw(k, v), Width(k))
    case Slice(k, vs) => EncodeSlice(k, vs, false)
    case Array(k, vs) => EncodeSlice(k, vs, true)
    case EncoderStruct(bs) => BytesInRange(bs); EncodeSlice(Uint8, bs, false)
    case Silent => []
  }

  /** `Encode(elements...)`: the arguments' bytes one after the other; the error is always nil. */
  function Encode(es: seq<Elem>): (r: seq<byte>)
    requires AllWellTyped(es)
    decreases |es|
  {
    if es == [] then [] else EncodeElem(es[0]) + Encode(es[1..])
  }

  /** Encoding two argument lists is encoding each, one after the other. */
  lemma {:induction false} EncodeAppend(xs: seq<Elem>, ys: seq<Elem>)
    requires AllWellTyped(xs) && AllWellTyped(ys)
    ensures AllWellTyped(xs + ys) && Encode(xs + ys) == Encode(xs) + Encode(ys)
    decreases |xs|
  {
    assert AllWellTyped(xs + ys);
    if xs == [] {
      assert xs + ys == ys;
    } else {
      var tail := xs[1..];
      assert (xs + ys)[1..] == tail + ys && (xs + ys)[0] == xs[0];
      EncodeAppend(tail, ys);
      assert Encode(xs) + Encode(ys) == EncodeElem(xs[0]) + (Encode(tail) + Encode(ys));
    }
  }

  /** A struct pointer that is not an `Encoder` (or an unlisted kind) adds no bytes wherever it appears. */
  lemma {:induction false} SilentAddsNothing(xs: seq<Elem>, ys: seq<Elem>)
    requires AllWellTyped(xs) && AllWellTyped(ys)
    ensures AllWellTyped(xs + [Silent] + ys) && Encode(xs + [Silent] + ys) == Encode(xs + ys)
  {
    assert Encode([Silent]) == [] by {
      assert [Silent][1..] == [];
    }
    EncodeAppend(xs, [Silent]);
    var xs1 := xs + [Silent];
    assert Encode(xs1) == Encode(xs);
    EncodeAppend(xs1, ys);
    EncodeAppend(xs, ys);
    assert xs1 + ys == xs + [Silent] + ys;
  }

  /** The big-endian bytes of a value below 256: leading zeros, then the value. */
  lemma {:induction false} SmallBigEndian(x: nat, n: nat)
    requires 1 <= n && x < 256
    ensures Pow256(n) >= 256 && BigEndian(x, n) == Zeros(n - 1) + [x]
  {
    if n == 1 {
      Pow256Values();
      assert BigEndian(x, 1) == BigEndian(0, 0) + [x];
    } else {
      SmallBigEndian(0, n - 1);
      assert BigEndian(x, n) == BigEndian(0, n - 1) + [x];
      assert Zeros(n - 2) + [0] == Zeros(n - 1);
    }
  }

  /** The elements of a byte slice are its bytes. */
  lemma {:induction false} ByteElements(bs: seq<byte>)
    ensures AllInRange(Uint8, bs) && Elements(Uint8, bs) == bs
    decreases |bs|
  {
    BytesInRange(bs);
    if bs != [] {
      SmallBigEndian(bs[0], 1);
      ByteElements(bs[1..]);
      assert bs == [bs[0]] + bs[1..];
    }
  }

  /** A slice is always its length and then its elements: the empty case writes the same zero length. */
  lemma {:induction false} SliceLayout(k: Kind, vs: seq<int>)
    requires AllInRange(k, vs) && |vs| < TwoTo63
    ensures EncodeElem(Slice(k, vs)) == LengthHeader(|vs|) + Elements(k, vs)
  {
  }

  /** A non-empty array is only its elements. */
  lemma {:induction false} ArrayLayout(k: Kind, vs: seq<int>)
    requires AllInRange(k, vs) && 0 < |vs| < TwoTo63
    ensures EncodeElem(Array(k, vs)) == Elements(k, vs)
  {
    assert [] + Elements(k, vs) == Elements(k, vs);
  }

  /** An empty slice and an empty array both encode as eight zero bytes. */
  lemma {:induction false} EmptyCollections(k: Kind)
    ensures EncodeElem(Slice(k, [])) == Zeros(8) && EncodeElem(Array(k, [])) == Zeros(8)
  {
    Pow256Values();
    SmallBigEndian(0, 8);
    assert Raw(Int64, 0) == 0;
  }

  /** An integer is its big-endian bytes of its natural width, read back as the same value. */
  lemma {:induction false} ScalarLayout(k: Kind, v: int)
    requires InRange(k, v)
    ensures var r := EncodeElem(Scalar(k, v)); |r| == Width(k) && FromRaw(k, FromBigEndian(r)) == v
  {
    FromBigEndianOfBigEndian(Raw(k, v), Width(k));
    FromRawOfRaw(k, v);
  }

  /** An `Encoder` struct whose `Encode()` gives `[6, 6, 6]` encodes as the length 3 and those bytes. */
  lemma {:induction false} EncoderStructBytes()
    ensures Encode([EncoderStruct([6, 6, 6])]) == [0, 0, 0, 0, 0, 0, 0, 3, 6, 6, 6]
  {
    var e := EncoderStruct([6, 6, 6]);
    assert [e][1..] == [];
    SmallLengthHeader(3);
    ByteElements([6, 6, 6]);
    assert EncodeElem(e) == LengthHeader(3) + [6, 6, 6];
    assert Encode([e]) == EncodeElem(e) + [];
  }

  /** A length below 256 is seven zero bytes and the length itself. */
  lemma {:induction false} SmallLengthHeader(n: nat)
    requires n < 256
    ensures LengthHeader(n) == Zeros(7) + [n]
  {
    Pow256Values();
    assert Raw(Int64, n) == n;
    SmallBigEndian(n, 8);
  }

  // ----------------------------------------------------------- the read buffer

  /**
   * `io.ReadFull` of `n` bytes from the unread bytes `rest`: all of them, or,
   * on a short read, none, with every remaining byte consumed. The second
   * component is how many bytes were consumed.
   */
  function ReadBytes(rest: seq<byte>, n: nat): (r: (Option<seq<byte>>, nat))
    ensures r.1 <= |rest| && (r.0.Some? ==> |r.0.value| == n)
  {
    if n <= |rest| then (Some(rest[..n]), n) else (None, |rest|)
  }

  /** A `bytes.Buffer` being read: its bytes and how many of them are read. */
  class ByteBuffer {
    const data: seq<byte>
    var off: int

    predicate Valid()
      reads this
    {
      0 <= off <= |data|
    }

    /** `bytes.NewBuffer(data)`: nothing is read yet. */
    constructor (data: seq<byte>)
      ensures this.data == data && off == 0 && Valid()
    {
      this.data := data;
      off := 0;
    }

    /** `Bytes()`: the unread bytes, left unread; what was read before them and they make up `data`. */
    function Bytes(): (r: seq<byte>)
      reads this
      requires Valid()
      ensures data == data[..off] + r
    {
      data[off..]
    }

    /** `io.ReadFull(buf, bs)` with `len(bs) == n`, as `binary.Read` calls it. */
    method ReadFull(n: nat) returns (got: Option<seq<byte>>)
      requires Valid()
      modifies this
      ensures Valid() && (got, off - old(off)) == ReadBytes(old(Bytes()), n)
    {
      if n <= |data| - off {
        assert data[off..off + n] == data[off..][..n];
        got := Some(data[off..off + n]);
        off := off + n;
      } else {
        got := None;
        off := |data|;
      }
    }
  }

  // ---------------------------------------------------------------- decoding

  /** A destination of `Decode`, with its current value. */
  datatype Target =
    | ScalarPtr(kind: Kind, v: int)         // a pointer to an integer
    | SlicePtr(kind: Kind, vs: seq<int>)    // a pointer to an integer slice
    | ArrayPtr(kind: Kind, vs: seq<int>)    // a pointer to an integer array
    | DecoderStruct(received: seq<byte>)    // a pointer to a struct with `Decode([]byte)`: the bytes it was given
  {
    predicate WellTyped() {
      (ScalarPtr? ==> InRange(kind, v)) && ((SlicePtr? || ArrayPtr?) ==> AllInRange(kind, vs))
    }
  }

  predicate AllTargetsWellTyped(ts: seq<Target>) {
    forall i :: 0 <= i < |ts| ==> ts[i].WellTyped()
  }

  /** `binary.BigEndian` reading of `count` values of kind `k` from exactly their bytes. */
  function FromElements(k: Kind, b: seq<byte>, count: nat): (vs: seq<int>)
    requires |b| == ByteSize(k, count)
    ensures |vs| == count && AllInRange(k, vs)
    decreases count
  {
    if count == 0 then []
    else
      var w := Width(k);
      [FromRaw(k, FromBigEndian(b[..w]))] + FromElements(k, b[w..], count - 1)
  }

  /**
   * `binary.Read` of `count` big-endian values of kind `k` into a
   * destination holding `prev`: all of them from the next bytes or, on a
   * short read, `prev` kept with every remaining byte consumed.
   */
  function ReadValues(rest: seq<byte>, k: Kind, count: nat, prev: seq<int>): (r: (seq<int>, nat))
    requires |prev| == count
    ensures r.1 <= |rest| && |r.0| == count
    ensures AllInRange(k, prev) ==> AllInRange(k, r.0)
  {
    var got := ReadBytes(rest, ByteSize(k, count));
    (if got.0.Some? then FromElements(k, got.0.value, count) else prev, got.1)
  }

  /** The `int64` length `decodeSlice` reads into a zeroed `size`, with the bytes consumed. */
  function SliceSize(rest: seq<byte>): (r: (int, nat))
    ensures r.1 <= |rest|
  {
    ZeroInRange(Int64);
    var size := ReadValues(rest, Int64, 1, [0]);
    (size.0[0], size.1)
  }

  /**
   * One destination of `Decode` read from the unread bytes `rest`, with the
   * number of bytes consumed; `None` when `make` panics on a negative slice
   * length. A `Decoder` is given every unread byte and consumes none.
   */
  function DecodeOne(rest: seq<byte>, t: Target): (r: Option<(Target, nat)>)
    ensures r.Some? ==> r.value.1 <= |rest|
  {
    match t
    case ScalarPtr(k, v) =>
      var read := ReadValues(rest, k, 1, [v]);
      Some((ScalarPtr(k, read.0[0]), read.1))
    case ArrayPtr(k, vs) =>
      var read := ReadValues(rest, k, |vs|, vs);
      Some((ArrayPtr(k, read.0), read.1))
    case SlicePtr(k, _) =>
      var size := SliceSize(rest);
      if size.0 < 0 then None
      else
        var read := ReadValues(rest[size.1..], k, size.0, ZeroVals(size.0));
        Some((SlicePtr(k, read.0), size.1 + read.1))
    case DecoderStruct(_) =>
      Some((DecoderStruct(rest), 0))
  }

  /** `Decode` over every destination in turn, with the number of bytes consumed; `None` on a panic. */
  function DecodeAll(rest: seq<byte>, ts: seq<Target>): (r: Option<(seq<Target>, nat)>)
    ensures r.Some? ==> |r.value.0| == |ts| && r.value.1 <= |rest|
    decreases |ts|
  {
    if ts == [] then Some(([], 0))
    else
      var first := DecodeOne(rest, ts[0]);
      if first.None? then None
      else
        var tail := DecodeAll(rest[first.value.1..], ts[1..]);
        if tail.None? then None else Some(([first.value.0] + tail.value.0, first.value.1 + tail.value.1))
  }

  /** `DecodeAll` of a non-empty list: the first destination, then the rest from the bytes it left. */
  lemma {:induction false} DecodeAllCons(rest: seq<byte>, ts: seq<Target>, t: Target, n: nat)
    requires ts != [] && DecodeOne(rest, ts[0]) == Some((t, n))
    ensures n <= |rest|
    ensures var tail := DecodeAll(rest[n..], ts[1..]);
      DecodeAll(rest, ts) == if tail.None? then None else Some(([t] + tail.value.0, n + tail.value.1))
  {
  }

  /** In a list that does not panic, the first destination does not panic. */
  lemma {:induction false} DecodeAllHead(rest: seq<byte>, ts: seq<Target>)
    requires ts != [] && DecodeAll(rest, ts).Some?
    ensures DecodeOne(rest, ts[0]).Some?
  {
  }

  /** In a list that does not panic, the rest, read from the bytes the first destination left, does not panic either. */
  lemma {:induction false} DecodeAllStep(rest: seq<byte>, ts: seq<Target>, t: Target, n: nat)
    requires ts != [] && DecodeAll(rest, ts).Some? && DecodeOne(rest, ts[0]) == Some((t, n))
    ensures n <= |rest| && DecodeAll(rest[n..], ts[1..]).Some?
    ensures DecodeAll(rest, ts).value == ([t] + DecodeAll(rest[n..], ts[1..]).value.0, n + DecodeAll(rest[n..], ts[1..]).value.1)
  {
  }

  /** `decode(buf, dst)`: `binary.Read` of `count` big-endian values of kind `k` into a destination holding `prev`. */
  method Read(buf: ByteBuffer, k: Kind, count: nat, prev: seq<int>) returns (vs: seq<int>)
    requires buf.Valid() && |prev| == count
    modifies buf
    ensures buf.Valid() && old(buf.off) <= buf.off
    ensures ReadValues(old(buf.Bytes()), k, count, prev) == (vs, buf.off - old(buf.off))
  {
    var got := buf.ReadFull(ByteSize(k, count));
    if got.Some? {
      vs := FromElements(k, got.value, count);
    } else {
      vs := prev;
    }
  }

  /**
   * `decodeSlice`: the length into a zeroed `int64`, a zeroed slice of that
   * length (`make` panics on a negative one), then its elements.
   */
  method DecodeSlice(buf: ByteBuffer, k: Kind) returns (vs: seq<int>)
    requires buf.Valid() && SliceSize(buf.Bytes()).0 >= 0
    modifies buf
    ensures buf.Valid() && old(buf.off) <= buf.off
    ensures DecodeOne(old(buf.Bytes()), SlicePtr(k, [])) == Some((SlicePtr(k, vs), buf.off - old(buf.off)))
  {
    ghost var rest := buf.Bytes();
    ZeroInRange(Int64);
    var size := Read(buf, Int64, 1, [0]);
    assert rest[buf.off - old(buf.off)..] == buf.Bytes();
    var tmp := ZeroVals(size[0]);
    vs := Read(buf, k, size[0], tmp);
  }

  /** One destination of the `Decode` loop, as `DecodeOne` describes it over the unread bytes. */
  method DecodeItem(buf: ByteBuffer, t: Target) returns (r: Target)
    requires buf.Valid() && DecodeOne(buf.Bytes(), t).Some?
    modifies buf
    ensures buf.Valid() && old(buf.off) <= buf.off
    ensures DecodeOne(old(buf.Bytes()), t) == Some((r, buf.off - old(buf.off)))
  {
    match t
    case ScalarPtr(k, v) =>
      var vs := Read(buf, k, 1, [v]);
      r := ScalarPtr(k, vs[0]);
    case ArrayPtr(k, vs) =>
      var ws := Read(buf, k, |vs|, vs);
      r := ArrayPtr(k, ws);
    case SlicePtr(k, _) =>
      var vs := DecodeSlice(buf, k);
      r := SlicePtr(k, vs);
    case DecoderStruct(_) =>
      r := DecoderStruct(buf.Bytes());
  }

  /**
   * `Decode(buf, items...)`: each destination in order, as `DecodeAll`
   * describes it over the unread bytes, with the buffer moved past the
   * bytes consumed. A negative slice length panics, so it is excluded.
   */
  method Decode(buf: ByteBuffer, items: seq<Target>) returns (out: seq<Target>)
    requires buf.Valid() && DecodeAll(buf.Bytes(), items).Some?
    modifies buf
    ensures buf.Valid() && DecodeAll(old(buf.Bytes()), items) == Some((out, buf.off - old(buf.off)))
  {
    out := [];
    ghost var start := buf.off;
    ghost var rest0 := buf.data[start..];
    assert rest0 == buf.Bytes();
    ghost var want := DecodeAll(rest0, items).value;
    var i := 0;
    assert items[i..] == items && out + want.0 == want.0;
    while i < |items|
      invariant 0 <= i <= |items| && buf.Valid() && start <= buf.off
      invariant Remaining(buf.data[buf.off..], items[i..], want, out, buf.off - start)
    {
      ghost var at := buf.off;
      ghost var rest := buf.data[at..];
      DecodeAllHead(rest, items[i..]);
      assert items[i..][0] == items[i];
      var t := DecodeItem(buf, items[i]);
      RemainingStep(rest, items[i..], want, out, at - start, t, buf.off - at);
      assert rest[buf.off - at..] == buf.data[buf.off..] && items[i..][1..] == items[i + 1..];
      out := out + [t];
      i := i + 1;
    }
    assert items[i..] == [] && DecodeAll(buf.data[buf.off..], []) == Some(([], 0));
    assert out + [] == out;
  }

  /** What is left to decode after `out` and `used` bytes: together they make up `want`. */
  ghost predicate Remaining(rest: seq<byte>, ts: seq<Target>, want: (seq<Target>, nat), out: seq<Target>, used: int)
  {
    DecodeAll(rest, ts).Some? &&
    want.0 == out + DecodeAll(rest, ts).value.0 && want.1 == used + DecodeAll(rest, ts).value.1
  }

  lemma {:induction false} RemainingStep(rest: seq<byte>, ts: seq<Target>, want: (seq<Target>, nat), out: seq<Target>, used: int, t: Target, n: nat)
    requires ts != [] && Remaining(rest, ts, want, out, used) && DecodeOne(rest, ts[0]) == Some((t, n))
    ensures n <= |rest| && Remaining(rest[n..], ts[1..], want, out + [t], used + n)
  {
    DecodeAllStep(rest, ts, t, n);
    var tail := DecodeAll(rest[n..], ts[1..]).value;
    assert out + ([t] + tail.0) == (out + [t]) + tail.0;
  }

  // ------------------------------------------------------------- round trips

  /** `FromElements` reads back what `Elements` wrote. */
  lemma {:induction false} FromElementsOfElements(k: Kind, vs: seq<int>)
    requires AllInRange(k, vs)
    ensures FromElements(k, Elements(k, vs), |vs|) == vs
    decreases |vs|
  {
    if vs != [] {
      var tail := vs[1..];
      ElementInFront(k, vs[0], Elements(k, tail));
      FromElementsOfElements(k, tail);
      assert vs == [vs[0]] + tail;
    }
  }

  /** One value's element in front of other bytes reads back as that value and leaves those bytes. */
  lemma {:induction false} ElementInFront(k: Kind, v: int, rest: seq<byte>)
    requires InRange(k, v)
    ensures var b := BigEndian(Raw(k, v), Width(k)) + rest;
      b[Width(k)..] == rest && FromBigEndian(b[..Width(k)]) < Range(k) && FromRaw(k, FromBigEndian(b[..Width(k)])) == v
  {
    var head := BigEndian(Raw(k, v), Width(k));
    assert (head + rest)[..Width(k)] == head;
    FromBigEndianOfBigEndian(Raw(k, v), Width(k));
    FromRawOfRaw(k, v);
  }

  /** Reading `|vs|` values of kind `k` from their elements, whatever follows, gives `vs` and consumes exactly them. */
  lemma {:induction false} ReadValuesOfElements(k: Kind, vs: seq<int>, post: seq<byte>, prev: seq<int>)
    requires AllInRange(k, vs) && |prev| == |vs|
    ensures ReadValues(Elements(k, vs) + post, k, |vs|, prev) == (vs, |Elements(k, vs)|)
  {
    var b := Elements(k, vs);
    assert (b + post)[..|b|] == b;
    FromElementsOfElements(k, vs);
  }

  /** The length header is the one element of an `int64` list. */
  lemma {:induction false} LengthHeaderElements(n: nat)
    requires n < TwoTo63
    ensures InRange(Int64, n) && LengthHeader(n) == Elements(Int64, [n])
  {
    Pow256Values();
    assert [n][1..] == [];
  }

  /**
   * The encoding the array branch of `encodeSlice` evidently intends: an
   * array's elements alone, empty or not, since the decoder knows the length.
   */
  function EncodeElemIntended(e: Elem): (r: seq<byte>)
    requires e.WellTyped()
  {
    if e.Array? then Elements(e.kind, e.vs) else EncodeElem(e)
  }

  function EncodeIntended(es: seq<Elem>): (r: seq<byte>)
    requires AllWellTyped(es)
    decreases |es|
  {
    if es == [] then [] else EncodeElemIntended(es[0]) + EncodeIntended(es[1..])
  }

  /** An argument `Decode` can read back: an integer, an integer slice or an integer array. */
  predicate Plain(e: Elem) {
    (e.Scalar? || e.Slice? || e.Array?) && e.WellTyped()
  }

  predicate AllPlain(es: seq<Elem>) {
    forall i :: 0 <= i < |es| ==> Plain(es[i])
  }

  /** No argument is an empty array. */
  predicate NoEmptyArray(es: seq<Elem>) {
    forall i :: 0 <= i < |es| ==> es[i].Array? ==> es[i].vs != []
  }

  /** The zeroed destination a caller passes for an argument: a pointer to the same kind and, for an array, the same length. */
  function Shape(e: Elem): (t: Target)
    requires Plain(e)
    ensures t.WellTyped()
  {
    ZeroInRange(e.kind);
    match e
    case Scalar(k, _) => ScalarPtr(k, 0)
    case Slice(k, _) => SlicePtr(k, [])
    case Array(k, vs) => ArrayPtr(k, ZeroVals(|vs|))
  }

  /** What the destination holds once the argument is read back. */
  function Expected(e: Elem): Target
    requires Plain(e)
  {
    match e
    case Scalar(k, v) => ScalarPtr(k, v)
    case Slice(k, vs) => SlicePtr(k, vs)
    case Array(k, vs) => ArrayPtr(k, vs)
  }

  function Shapes(es: seq<Elem>): (ts: seq<Target>)
    requires AllPlain(es)
    ensures |ts| == |es|
    decreases |es|
  {
    if es == [] then [] else [Shape(es[0])] + Shapes(es[1..])
  }

  function Expecteds(es: seq<Elem>): (ts: seq<Target>)
    requires AllPlain(es)
    ensures |ts| == |es|
    decreases |es|
  {
    if es == [] then [] else [Expected(es[0])] + Expecteds(es[1..])
  }

  /** An integer's bytes, whatever follows, read back into a zeroed integer of its kind. */
  lemma {:induction false} DecodeScalarOfEncode(k: Kind, v: int, post: seq<byte>)
    requires InRange(k, v)
    ensures InRange(k, 0) && DecodeOne(EncodeElem(Scalar(k, v)) + post, ScalarPtr(k, 0)) == Some((ScalarPtr(k, v), Width(k)))
  {
    ZeroInRange(k);
    assert [v][1..] == [];
    assert EncodeElem(Scalar(k, v)) == Elements(k, [v]);
    ReadValuesOfElements(k, [v], post, [0]);
  }

  /** An array's elements, whatever follows, read back into a zeroed array of its kind and length. */
  lemma {:induction false} DecodeArrayOfEncode(k: Kind, vs: seq<int>, post: seq<byte>)
    requires AllInRange(k, vs)
    ensures InRange(k, 0) && DecodeOne(Elements(k, vs) + post, ArrayPtr(k, ZeroVals(|vs|))) == Some((ArrayPtr(k, vs), ByteSize(k, |vs|)))
  {
    ZeroInRange(k);
    ReadValuesOfElements(k, vs, post, ZeroVals(|vs|));
  }

  /** A slice's length and elements, whatever follows, read back into an empty slice of its kind. */
  lemma {:induction false} DecodeSliceOfEncode(k: Kind, vs: seq<int>, post: seq<byte>)
    requires AllInRange(k, vs) && |vs| < TwoTo63
    ensures DecodeOne(LengthHeader(|vs|) + (Elements(k, vs) + post), SlicePtr(k, [])) == Some((SlicePtr(k, vs), 8 + ByteSize(k, |vs|)))
  {
    var header := LengthHeader(|vs|);
    var body := Elements(k, vs);
    var rest := header + (body + post);
    SliceSizeOfHeader(|vs|, body + post);
    assert rest[8..] == body + post;
    DecodeSliceBody(rest, k, vs, post);
  }

  /** A length header, whatever follows, reads back as that length, consuming eight bytes. */
  lemma {:induction false} SliceSizeOfHeader(n: nat, post: seq<byte>)
    requires n < TwoTo63
    ensures SliceSize(LengthHeader(n) + post) == (n, 8)
  {
    LengthHeaderElements(n);
    ZeroInRange(Int64);
    ReadValuesOfElements(Int64, [n], post, [0]);
  }

  /** Once the length read is `|vs|`, the elements that follow read back as `vs`. */
  lemma {:induction false} DecodeSliceBody(rest: seq<byte>, k: Kind, vs: seq<int>, post: seq<byte>)
    requires AllInRange(k, vs) && SliceSize(rest) == (|vs|, 8) && rest[8..] == Elements(k, vs) + post
    ensures DecodeOne(rest, SlicePtr(k, [])) == Some((SlicePtr(k, vs), 8 + ByteSize(k, |vs|)))
  {
    ReadValuesOfElements(k, vs, post, ZeroVals(|vs|));
  }

  /** One argument, encoded as intended and followed by anything, reads back into its zeroed destination. */
  lemma {:induction false} DecodeOneOfEncodeElem(e: Elem, post: seq<byte>)
    requires Plain(e)
    ensures DecodeOne(EncodeElemIntended(e) + post, Shape(e)) == Some((Expected(e), |EncodeElemIntended(e)|))
  {
    match e
    case Scalar(k, v) => DecodeScalarOfEncode(k, v, post);
    case Array(k, vs) => DecodeArrayOfEncode(k, vs, post);
    case Slice(k, vs) =>
      SliceLayout(k, vs);
      assert EncodeElemIntended(e) + post == LengthHeader(|vs|) + (Elements(k, vs) + post);
      DecodeSliceOfEncode(k, vs, post);
  }

  /** `EncodeIntended(es)` followed by `post`, with each argument's bytes put directly before the rest. */
  function EncodeOnto(es: seq<Elem>, post: seq<byte>): (r: seq<byte>)
    requires AllPlain(es)
    ensures |post| <= |r|
    decreases |es|
  {
    if es == [] then post else EncodeElemIntended(es[0]) + EncodeOnto(es[1..], post)
  }

  lemma {:induction false} EncodeOntoIsAppend(es: seq<Elem>, post: seq<byte>)
    requires AllPlain(es) && AllWellTyped(es)
    ensures EncodeOnto(es, post) == EncodeIntended(es) + post
    decreases |es|
  {
    if es != [] {
      EncodeOntoIsAppend(es[1..], post);
      assert EncodeIntended(es) + post == EncodeElemIntended(es[0]) + (EncodeIntended(es[1..]) + post);
    }
  }

  /** `DecodeAll` reads `bytes` into `ts`, giving `out` and consuming `n` bytes. */
  ghost predicate ReadsBack(bytes: seq<byte>, ts: seq<Target>, out: seq<Target>, n: int)
  {
    DecodeAll(bytes, ts) == Some((out, n))
  }

  lemma {:induction false} DecodeAllOfEncodeOnto(es: seq<Elem>, post: seq<byte>)
    requires AllPlain(es)
    ensures ReadsBack(EncodeOnto(es, post), Shapes(es), Expecteds(es), |EncodeOnto(es, post)| - |post|)
    decreases |es|
  {
    if es != [] {
      var tail := es[1..];
      OntoCons(es, post);
      DecodeAllOfEncodeOnto(tail, post);
      ConsStep(es[0], EncodeOnto(tail, post), post, Shapes(tail), Expecteds(tail), EncodeOnto(es, post), Shapes(es), Expecteds(es));
    } else {
      assert ReadsBack(post, [], [], 0);
    }
  }

  /** The bytes, shapes and expected values of a non-empty list: its first argument's, then the rest's. */
  lemma {:induction false} OntoCons(es: seq<Elem>, post: seq<byte>)
    requires AllPlain(es) && es != []
    ensures AllPlain(es[1..])
    ensures EncodeOnto(es, post) == EncodeElemIntended(es[0]) + EncodeOnto(es[1..], post)
    ensures Shapes(es) == [Shape(es[0])] + Shapes(es[1..])
    ensures Expecteds(es) == [Expected(es[0])] + Expecteds(es[1..])
  {
    assert AllPlain(es[1..]);
  }

  /** One more argument in front: its bytes read back first, then the rest as before. */
  lemma {:induction false} ConsStep(x: Elem, rest: seq<byte>, post: seq<byte>, ts: seq<Target>, out: seq<Target>,
                                    bytes: seq<byte>, all: seq<Target>, outs: seq<Target>)
    requires Plain(x) && |post| <= |rest|
    requires ReadsBack(rest, ts, out, |rest| - |post|)
    requires bytes == EncodeElemIntended(x) + rest && all == [Shape(x)] + ts && outs == [Expected(x)] + out
    ensures ReadsBack(bytes, all, outs, |bytes| - |post|)
  {
    DecodeOneOfEncodeElem(x, rest);
    DecodeAllAppend(EncodeElemIntended(x), rest, post, Shape(x), ts, Expected(x), out);
  }

  /**
   * Integers, slices and arrays encoded as intended one after the other,
   * whatever follows them, read back into zeroed destinations of their
   * shapes as the original values, consuming exactly their encoding.
   */
  lemma {:induction false} DecodeAllOfEncodeIntended(es: seq<Elem>, post: seq<byte>)
    requires AllPlain(es)
    ensures AllWellTyped(es)
    ensures DecodeAll(EncodeIntended(es) + post, Shapes(es)) == Some((Expecteds(es), |EncodeIntended(es)|))
  {
    assert AllWellTyped(es);
    DecodeAllOfEncodeOnto(es, post);
    EncodeOntoIsAppend(es, post);
  }

  /** A first destination that reads exactly `head`, then the rest from what follows it. */
  lemma {:induction false} DecodeAllAppend(head: seq<byte>, rest: seq<byte>, post: seq<byte>, t: Target, ts: seq<Target>, got: Target, out: seq<Target>)
    requires |post| <= |rest| && DecodeOne(head + rest, t) == Some((got, |head|))
    requires ReadsBack(rest, ts, out, |rest| - |post|)
    ensures ReadsBack(head + rest, [t] + ts, [got] + out, |head + rest| - |post|)
  {
    var all := [t] + ts;
    assert all[0] == t && all[1..] == ts;
    assert (head + rest)[|head|..] == rest;
    DecodeAllCons(head + rest, all, got, |head|);
  }

  /** Without empty arrays, `Encode` writes exactly the intended bytes. */
  lemma {:induction false} EncodeIsIntended(es: seq<Elem>)
    requires AllWellTyped(es) && NoEmptyArray(es)
    ensures Encode(es) == EncodeIntended(es)
    decreases |es|
  {
    if es != [] {
      if es[0].Array? {
        ArrayLayout(es[0].kind, es[0].vs);
      }
      EncodeIsIntended(es[1..]);
    }
  }

  /**
   * `Decode(Encode(x...))` into zeroed destinations of the same shapes gives
   * back every integer, slice and non-empty array, consuming exactly the
   * encoding, whatever follows it.
   */
  lemma {:induction false} DecodeAllOfEncode(es: seq<Elem>, post: seq<byte>)
    requires AllPlain(es) && NoEmptyArray(es)
    ensures AllWellTyped(es)
    ensures DecodeAll(Encode(es) + post, Shapes(es)) == Some((Expecteds(es), |Encode(es)|))
  {
    DecodeAllOfEncodeIntended(es, post);
    EncodeIsIntended(es);
  }

  /**
   * An empty array still gets the eight-byte zero length, which `Decode`
   * does not read for an array: an `int8` 5 after it reads back as 0.
   */
  lemma {:induction false} EmptyArrayMisaligns()
    ensures var es := [Array(Int8, []), Scalar(Int8, 5)];
      AllPlain(es) && Encode(es) == Zeros(8) + [5] &&
      DecodeAll(Encode(es), Shapes(es)) == Some(([ArrayPtr(Int8, []), ScalarPtr(Int8, 0)], 1))
  {
    var es := [Array(Int8, []), Scalar(Int8, 5)];
    EmptyArrayThenFive();
    var rest := Zeros(8) + [5];
    var ts := Shapes(es);
    assert ts == [ArrayPtr(Int8, []), ScalarPtr(Int8, 0)];
    assert DecodeOne(rest, ts[0]) == Some((ArrayPtr(Int8, []), 0));
    ZeroByteReadsZero(rest);
    assert ts[1..][1..] == [];
    DecodeAllCons(rest, ts[1..], ScalarPtr(Int8, 0), 1);
    assert rest[0..] == rest;
    DecodeAllCons(rest, ts, ArrayPtr(Int8, []), 0);
  }

  lemma {:induction false} EmptyArrayThenFive()
    ensures var es := [Array(Int8, []), Scalar(Int8, 5)];
      AllPlain(es) && Encode(es) == Zeros(8) + [5]
  {
    Pow256Values();
    var es := [Array(Int8, []), Scalar(Int8, 5)];
    assert AllPlain(es);
    EmptyCollections(Int8);
    SmallBigEndian(5, 1);
    assert es[1..][1..] == [];
    assert Encode(es[1..]) == [5] + [];
  }

  /** An `int8` read from a zero byte is 0, consuming that byte. */
  lemma {:induction false} ZeroByteReadsZero(rest: seq<byte>)
    requires rest != [] && rest[0] == 0
    ensures DecodeOne(rest, ScalarPtr(Int8, 0)) == Some((ScalarPtr(Int8, 0), 1))
  {
    Pow256Values();
    assert ByteSize(Int8, 1) == 1;
    assert rest[..1] == [0];
    assert FromElements(Int8, [0], 1) == [FromRaw(Int8, FromBigEndian([0]))];
  }

  /** A `Decoder` is given every unread byte, prefix and later arguments included, and the next destination reads the same bytes. */
  lemma {:induction false} DecoderConsumesNothing(rest: seq<byte>, prev: seq<byte>, ts: seq<Target>)
    ensures var tail := DecodeAll(rest, ts);
      DecodeAll(rest, [DecoderStruct(prev)] + ts) ==
        if tail.None? then None else Some(([DecoderStruct(rest)] + tail.value.0, tail.value.1))
  {
    var all := [DecoderStruct(prev)] + ts;
    assert all[1..] == ts && rest[0..] == rest;
    DecodeAllCons(rest, all, DecoderStruct(rest), 0);
  }

  /** `Encode` then `Decode` into zeroed destinations of the same shapes gives back every argument and reads every byte. */
  method RoundTrip(es: seq<Elem>) returns (out: seq<Target>, left: nat)
    requires AllPlain(es) && NoEmptyArray(es)
    ensures out == Expecteds(es) && left == 0
  {
    DecodeAllOfEncode(es, []);
    var bytes := Encode(es);
    assert bytes + [] == bytes;
    var buf := new ByteBuffer(bytes);
    out := Decode(buf, Shapes(es));
    left := |buf.Bytes()|;
  }

  /** An `Encoder` struct's bytes handed to a `Decoder` struct: it is given the length prefix and the bytes. */
  method StructRoundTrip() returns (received: seq<byte>)
    ensures received == [0, 0, 0, 0, 0, 0, 0, 3, 6, 6, 6]
  {
    EncoderStructBytes();
    var buf := new ByteBuffer(Encode([EncoderStruct([6, 6, 6])]));
    var out := Decode(buf, [DecoderStruct([])]);
    received := out[0].received;
  }

  // ----------------------------------------------------------------- Decode2

  /** An argument to `Decode2`: a byte slice (its backing array), or anything else. */
  datatype Item = ByteSlice(a: array<byte>) | Other

  /** Where `Decode2` starts copying into argument `j`: the total length of the byte slices before it. */
  function Start(items: seq<Item>, j: nat): nat
    requires j <= |items|
    decreases j
  {
    if j == 0 then 0
    else Start(items, j - 1) + if items[j - 1].ByteSlice? then items[j - 1].a.Length else 0
  }

  /** The arrays `Decode2` writes into. */
  function Targets(items: seq<Item>): set<array<byte>> {
    set i | 0 <= i < |items| && items[i].ByteSlice? :: items[i].a
  }

  /** No two byte-slice arguments share their array. */
  predicate Disjoint(items: seq<Item>) {
    forall i, j :: 0 <= i < j < |items| && items[i].ByteSlice? && items[j].ByteSlice? ==> items[i].a != items[j].a
  }

  /** Argument `j` holds the chunk of `buf` from its start on, as much as fits, over what it held. */
  ghost predicate Filled(buf: seq<byte>, items: seq<Item>, j: nat, prev: seq<byte>)
    requires j < |items| && items[j].ByteSlice?
    reads items[j].a
  {
    var s := Start(items, j);
    var a := items[j].a;
    s <= |buf| && |prev| == a.Length &&
    var n := Min(a.Length, |buf| - s);
    a[..] == buf[s..s + n] + prev[n..]
  }

  /**
   * `Decode2(buf, items...)`: every byte slice gets the next chunk of
   * `buf`, as long as the slice (or what is left of `buf`), copied over its
   * front; other arguments are skipped. Slicing `buf` past its end panics.
   */
  method Decode2(buf: seq<byte>, items: seq<Item>)
    requires Disjoint(items)
    requires forall j :: 0 <= j < |items| && items[j].ByteSlice? ==> Start(items, j) <= |buf|
    modifies Targets(items)
    ensures forall j :: 0 <= j < |items| && items[j].ByteSlice? ==> Filled(buf, items, j, old(items[j].a[..]))
  {
    var i, pos := 0, 0;
    while i < |items|
      invariant 0 <= i <= |items| && pos == Start(items, i)
      invariant forall j :: 0 <= j < i && items[j].ByteSlice? ==> Filled(buf, items, j, old(items[j].a[..]))
      invariant forall j :: i <= j < |items| && items[j].ByteSlice? ==> items[j].a[..] == old(items[j].a[..])
    {
      if items[i].ByteSlice? {
        var a := items[i].a;
        assert a in Targets(items);
        ghost var prev := a[..];
        var n := CopyInto(a, 0, buf[pos..]);
        assert buf[pos..][..n] == buf[pos..pos + n];
        assert Filled(buf, items, i, prev);
        pos := pos + a.Length;
      }
      i := i + 1;
    }
  }

  /**
   * The split `Decode2` is used for: two byte slices of the right lengths
   * over a concatenation, with anything else between them, get back the
   * two parts.
   */
  method SplitPair(first: seq<byte>, second: seq<byte>) returns (x: seq<byte>, y: seq<byte>)
    ensures x == first && y == second
  {
    var xa := new byte[|first|](_ => 0);
    var ya := new byte[|second|](_ => 0);
    var buf := first + second;
    var items := [ByteSlice(xa), Other, ByteSlice(ya)];
    assert Start(items, 2) == |first|;
    ghost var x0, y0 := xa[..], ya[..];
    Decode2(buf, items);
    assert Filled(buf, items, 0, x0) && Filled(buf, items, 2, y0);
    x, y := xa[..], ya[..];
    assert buf[0..|first|] == first;
    assert buf[|first|..|first| + |second|] == second;
  }
}
