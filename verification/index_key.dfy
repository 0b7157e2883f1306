/**
 * An index slot (db/index/key.go): 20 bytes holding the key's hash at
 * [0:8], the position of the next slot of its collision chain at [8:12] and
 * the record offset at [12:20], each big-endian.
 */
module IndexKey {
  import opened GoInts

  const KeySize: nat := 20

  /** A slot's bytes. */
  type Key = k: seq<byte> | |k| == KeySize witness Zeros(KeySize)

  /** `Empty()`: the slot is all zero bytes. */
  predicate Empty(k: Key) {
    k == Zeros(KeySize)
  }

  /** `Hash()`: the `uint64` at [0:8]. */
  function Hash(k: Key): (h: nat)
    ensures h < TwoTo64
  {
    Pow256Values();
    FromBigEndian(k[0..8])
  }

  /** `Position()`: the `uint32` at [8:12]. */
  function Position(k: Key): (p: nat)
    ensures p < TwoTo32
  {
    Pow256Values();
    FromBigEndian(k[8..12])
  }

  /** `Offset()`: the `uint64` at [12:20], read as an `int64`. */
  function Offset(k: Key): (o: int)
    ensures InRange(Int64, o)
  {
    Pow256Values();
    Int64Of(FromBigEndian(k[12..20]))
  }

  /** `HasCollision()`: the position bytes are not all zero. */
  predicate HasCollision(k: Key) {
    k[8..12] != [0, 0, 0, 0]
  }

  /** `Equal`: the stored hash is the given one. */
  predicate Equal(k: Key, hash: nat) {
    Hash(k) == hash
  }

  /** A slot has a collision exactly when its position is not zero. */
  lemma {:induction false} HasCollisionIffPosition(k: Key)
    ensures HasCollision(k) <==> Position(k) != 0
  {
    var z := k[8..12];
    FromBigEndianZero(z);
    assert z == [0, 0, 0, 0] <==> forall i :: 0 <= i < 4 ==> z[i] == 0;
  }

  /** An empty slot has hash, position and offset zero, and no collision. */
  lemma {:induction false} EmptyFields(k: Key)
    requires Empty(k)
    ensures Hash(k) == 0 && Position(k) == 0 && Offset(k) == 0 && !HasCollision(k)
  {
    FromBigEndianZero(k[0..8]);
    FromBigEndianZero(k[8..12]);
    FromBigEndianZero(k[12..20]);
    HasCollisionIffPosition(k);
    Pow256Values();
  }

  /** Writes `bytes` over `k[at..at+|bytes|]`, leaving every other byte as it was. */
  method Put(k: array<byte>, at: nat, bytes: seq<byte>)
    requires at + |bytes| <= k.Length
    modifies k
    ensures k[..] == old(k[..])[..at] + bytes + old(k[..])[at + |bytes|..]
  {
    forall i | 0 <= i < |bytes| {
      k[at + i] := bytes[i];
    }
    assert k[..] == old(k[..])[..at] + bytes + old(k[..])[at + |bytes|..];
  }

  /** `SetHash(h)`: `Hash()` now reads `h`; the other twelve bytes are unchanged. */
  method SetHash(k: array<byte>, h: nat)
    requires k.Length == KeySize && h < TwoTo64
    modifies k
    ensures Hash(k[..]) == h && k[8..] == old(k[8..])
  {
    Pow256Values();
    Put(k, 0, BigEndian(h, 8));
    assert k[0..8] == BigEndian(h, 8);
    FromBigEndianOfBigEndian(h, 8);
  }

  /** `SetPosition(p)`: `Position()` now reads `p`; bytes [0:8] and [12:20] are unchanged. */
  method SetPosition(k: array<byte>, p: nat)
    requires k.Length == KeySize && p < TwoTo32
    modifies k
    ensures Position(k[..]) == p && k[..8] == old(k[..8]) && k[12..] == old(k[12..])
  {
    Pow256Values();
    Put(k, 8, BigEndian(p, 4));
    assert k[8..12] == BigEndian(p, 4);
    FromBigEndianOfBigEndian(p, 4);
  }

  /** `SetOffset(o)`: `Offset()` now reads `int64(o)`; bytes [0:12] are unchanged. */
  method SetOffset(k: array<byte>, o: nat)
    requires k.Length == KeySize && o < TwoTo64
    modifies k
    ensures Offset(k[..]) == Int64Of(o) && k[..12] == old(k[..12])
  {
    Pow256Values();
    Put(k, 12, BigEndian(o, 8));
    assert k[12..20] == BigEndian(o, 8);
    FromBigEndianOfBigEndian(o, 8);
  }

  /** A slot with a non-zero hash is never empty. */
  lemma {:induction false} HashedIsNotEmpty(k: Key)
    requires Hash(k) != 0
    ensures !Empty(k)
  {
    if Empty(k) {
      EmptyFields(k);
    }
  }

  /**
   * Setting all three fields of a zeroed slot stores them independently:
   * each getter reads back what was set, and the slot has a collision
   * exactly when the position is not zero.
   */
  method FillSlot(h: nat, p: nat, o: nat) returns (k: Key)
    requires h < TwoTo64 && p < TwoTo32 && o < TwoTo64
    ensures Hash(k) == h && Position(k) == p && Offset(k) == Int64Of(o)
    ensures HasCollision(k) <==> p != 0
  {
    var a := new byte[KeySize](_ => 0);
    SetHash(a, h);
    ghost var s1 := a[..];
    SetPosition(a, p);
    assert a[..][0..8] == s1[0..8];
    ghost var s2 := a[..];
    SetOffset(a, o);
    assert a[..][0..8] == s2[0..8] && a[..][8..12] == s2[8..12];
    k := a[..];
    HasCollisionIffPosition(k);
  }
}
