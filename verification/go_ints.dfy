/**
 * Go's fixed-width integers as byte strings: big- and little-endian
 * encodings (`encoding/binary`, and the native order of the unsafe casts,
 * taken to be little-endian), the integer kinds and two's complement.
 */
module GoInts {

  /** Go's `byte` (`uint8`). */
  type byte = b: int | 0 <= b < 256

  function Pow256(n: nat): (r: nat)
    ensures r > 0
  {
    if n == 0 then 1 else 256 * Pow256(n - 1)
  }

  const TwoTo32: nat := 0x1_0000_0000
  const TwoTo64: nat := 0x1_0000_0000_0000_0000

  lemma {:induction false} Pow256Values()
    ensures Pow256(1) == 0x100 && Pow256(2) == 0x1_0000
    ensures Pow256(4) == TwoTo32 && Pow256(8) == TwoTo64
  {
  }

  function Zeros(n: nat): (r: seq<byte>)
    ensures |r| == n && forall i :: 0 <= i < n ==> r[i] == 0
  {
    seq(n, _ => 0)
  }

  // ---------------------------------------------------------------- big-endian

  /** The `n` bytes that `binary.BigEndian.PutUintN` stores for `x`, most significant first. */
  function BigEndian(x: nat, n: nat): (r: seq<byte>)
    requires x < Pow256(n)
    ensures |r| == n
  {
    if n == 0 then [] else BigEndian(x / 256, n - 1) + [x % 256]
  }

  /** The unsigned number that `binary.BigEndian.UintN` reads from `s`. */
  function FromBigEndian(s: seq<byte>): (r: nat)
    ensures r < Pow256(|s|)
  {
    if s == [] then 0
    else
      var p := FromBigEndian(s[..|s| - 1]);
      assert p * 256 + s[|s| - 1] < Pow256(|s| - 1) * 256 by {
        assert p <= Pow256(|s| - 1) - 1;
      }
      p * 256 + s[|s| - 1]
  }

  lemma {:induction false} FromBigEndianOfBigEndian(x: nat, n: nat)
    requires x < Pow256(n)
    ensures FromBigEndian(BigEndian(x, n)) == x
  {
    if n > 0 {
      var e := BigEndian(x, n);
      assert e[..n - 1] == BigEndian(x / 256, n - 1);
      FromBigEndianOfBigEndian(x / 256, n - 1);
    }
  }

  lemma {:induction false} BigEndianOfFromBigEndian(s: seq<byte>)
    ensures BigEndian(FromBigEndian(s), |s|) == s
  {
    if s != [] {
      var init := s[..|s| - 1];
      BigEndianOfFromBigEndian(init);
      assert s == init + [s[|s| - 1]];
    }
  }

  /** A byte string reads as zero exactly when every byte is zero. */
  lemma {:induction false} FromBigEndianZero(s: seq<byte>)
    ensures FromBigEndian(s) == 0 <==> forall i :: 0 <= i < |s| ==> s[i] == 0
  {
    if s != [] {
      FromBigEndianZero(s[..|s| - 1]);
      assert forall i :: 0 <= i < |s| - 1 ==> s[..|s| - 1][i] == s[i];
    }
  }

  // ------------------------------------------------------------- little-endian

  /** The `n` bytes of `x` in little-endian (native) order, least significant first. */
  function LittleEndian(x: nat, n: nat): (r: seq<byte>)
    requires x < Pow256(n)
    ensures |r| == n
  {
    if n == 0 then [] else [x % 256] + LittleEndian(x / 256, n - 1)
  }

  function FromLittleEndian(s: seq<byte>): (r: nat)
    ensures r < Pow256(|s|)
  {
    if s == [] then 0
    else
      var p := FromLittleEndian(s[1..]);
      assert s[0] + 256 * p < 256 * Pow256(|s| - 1) by {
        assert p <= Pow256(|s| - 1) - 1;
      }
      s[0] + 256 * p
  }

  lemma {:induction false} FromLittleEndianOfLittleEndian(x: nat, n: nat)
    requires x < Pow256(n)
    ensures FromLittleEndian(LittleEndian(x, n)) == x
  {
    if n > 0 {
      var e := LittleEndian(x, n);
      assert e[1..] == LittleEndian(x / 256, n - 1);
      FromLittleEndianOfLittleEndian(x / 256, n - 1);
    }
  }

  // ------------------------------------------------------------ integer kinds

  /** The fixed-width integer kinds of Go. */
  datatype Kind = Int8 | Int16 | Int32 | Int64 | Uint8 | Uint16 | Uint32 | Uint64

  /** Size in bytes (`unsafe.Sizeof`). */
  function Width(k: Kind): (w: nat)
    ensures w in {1, 2, 4, 8}
  {
    match k
    case Int8 | Uint8 => 1
    case Int16 | Uint16 => 2
    case Int32 | Uint32 => 4
    case Int64 | Uint64 => 8
  }

  predicate Signed(k: Kind) {
    k.Int8? || k.Int16? || k.Int32? || k.Int64?
  }

  /** The number of bit patterns of kind `k`, `256` to the power of its width. */
  function Range(k: Kind): nat {
    match k
    case Int8 | Uint8 => 0x100
    case Int16 | Uint16 => 0x1_0000
    case Int32 | Uint32 => TwoTo32
    case Int64 | Uint64 => TwoTo64
  }

  lemma {:induction false} RangeIsPow256(k: Kind)
    ensures Range(k) == Pow256(Width(k))
  {
    Pow256Values();
  }

  /** `v` is a value of kind `k`. */
  predicate InRange(k: Kind, v: int) {
    var m := Range(k);
    if Signed(k) then -(m / 2) <= v < m / 2 else 0 <= v < m
  }

  /** The unsigned bit pattern of `v` (two's complement for signed kinds). */
  function Raw(k: Kind, v: int): (u: nat)
    requires InRange(k, v)
    ensures u < Range(k)
  {
    if v < 0 then v + Range(k) else v
  }

  /** The value of kind `k` whose bit pattern is `u`. */
  function FromRaw(k: Kind, u: nat): (v: int)
    requires u < Range(k)
    ensures InRange(k, v)
  {
    var m := Range(k);
    if Signed(k) && u >= m / 2 then u - m else u
  }

  lemma {:induction false} FromRawOfRaw(k: Kind, v: int)
    requires InRange(k, v)
    ensures FromRaw(k, Raw(k, v)) == v
  {
  }

  /** Go's `int64(u)` for a `uint64` bit pattern `u`. */
  function Int64Of(u: nat): (v: int)
    requires u < TwoTo64
    ensures InRange(Int64, v) && (u < TwoTo64 / 2 ==> v == u)
  {
    Pow256Values();
    FromRaw(Int64, u)
  }

  // ---------------------------------------------------------------- division

  /**
   * `ceil(x / n)` for a positive divisor, as `(x + n - 1) / n`: the least
   * multiplier that reaches `x`.
   */
  function CeilDiv(x: nat, n: nat): (q: nat)
    requires n > 0
    ensures q * n >= x && (q == 0 || (q - 1) * n < x)
  {
    var q := (x + n - 1) / n;
    assert q * n >= x && q * n <= x + n - 1 by {
      assert x + n - 1 == q * n + (x + n - 1) % n;
    }
    q
  }

  function Abs(x: int): nat {
    if x < 0 then -x else x
  }

  /**
   * Go's integer `/`, which truncates toward zero (Dafny's rounds toward
   * negative infinity for a positive divisor): the remainder is smaller
   * than the divisor and has the sign of the dividend.
   */
  function Quot(a: int, b: int): (q: int)
    requires b != 0
    ensures var r := a - q * b; Abs(r) < Abs(b) && (r == 0 || (r < 0 <==> a < 0))
  {
    var q0 := Abs(a) / Abs(b);
    var q := if (a < 0) == (b < 0) then q0 else -q0;
    QuotRemainder(a, b, q0, q);
    q
  }

  /**
   * `int(math.Ceil(float64(x) / float64(n)))` for a non-zero divisor of
   * either sign: the least `q` whose multiple reaches `x` in the direction
   * of `n`.  For a negative divisor the ceiling of a non-positive quotient
   * is its truncation toward zero.
   */
  function CeilQuot(x: nat, n: int): (q: int)
    requires n != 0
    ensures n > 0 ==> q * n >= x && (q - 1) * n < x
    ensures n < 0 ==> q * n <= x && (q - 1) * n > x
  {
    if n > 0 then
      var q := CeilDiv(x, n);
      assert q == 0 ==> x == 0;
      q
    else
      var q := Quot(x, n);
      QuotRemainder(x, n, x / -n, q);
      q
  }

  /** The remainder left by the truncated quotient is the remainder of the magnitudes, with the dividend's sign. */
  lemma {:induction false} QuotRemainder(a: int, b: int, q0: int, q: int)
    requires b != 0 && q0 == Abs(a) / Abs(b) && q == (if (a < 0) == (b < 0) then q0 else -q0)
    ensures var r0 := Abs(a) % Abs(b); a - q * b == (if a < 0 then -r0 else r0) && 0 <= r0 < Abs(b)
  {
    var m, n := Abs(a), Abs(b);
    var r0 := m % n;
    var p := q0 * n;
    assert m == p + r0;
    if b > 0 {
      assert n == b;
      assert q * b == (if a < 0 then -p else p) by {
        if a < 0 {
          assert q == -q0;
        }
      }
    } else {
      assert n == -b;
      assert q * b == (if a < 0 then -p else p) by {
        if a < 0 {
          assert q == q0 && q0 * b == -(q0 * n);
        } else {
          assert q == -q0 && (-q0) * b == q0 * n;
        }
      }
    }
  }
}
