/**
 * The hash index file (db/index/index.go): a table of `capacity` primary
 * slots, addressed by `hash % capacity`, and an arena of collision slots
 * chained through each slot's position field; counters hand out the next
 * collision slot and its file offset.
 */
module IndexFile {
  import opened GoInts
  import opened Wrappers
  import opened IndexKey
  import OsFile
  import opened GoCopy

  // ---------------------------------------------------------------- FNV-1a

  /** The 64-bit FNV offset basis. */
  const FnvOffsetBasis: nat := 14695981039346656037
  /** The 64-bit FNV prime. */
  const FnvPrime: nat := 1099511628211

  /** Bitwise xor of two bytes. */
  function Xor8(a: byte, b: byte): byte {
    ((a as bv8) ^ (b as bv8)) as byte
  }

  /**
   * One FNV-1a round on a 64-bit state: xor the byte into the low eight
   * bits (the only ones a zero-extended byte can change), then multiply by
   * the prime modulo 2^64.
   */
  function FnvStep(h: nat, b: byte): (r: nat)
    requires h < TwoTo64
    ensures r < TwoTo64
  {
    ((h - h % 256 + Xor8(h % 256, b)) * FnvPrime) % TwoTo64
  }

  /** FNV-1a from state `h` over the bytes of `s`, first to last. */
  function FnvFrom(h: nat, s: seq<byte>): (r: nat)
    requires h < TwoTo64
    ensures r < TwoTo64
    decreases |s|
  {
    if s == [] then h else FnvFrom(FnvStep(h, s[0]), s[1..])
  }

  /** `Hash(key)`: the 64-bit FNV-1a hash of the key's bytes. */
  function Fnv1a64(key: seq<byte>): (h: nat)
    ensures h < TwoTo64
  {
    FnvFrom(FnvOffsetBasis, key)
  }

  /** Hashing in two pieces continues from the first piece's state, as `hash.Hash.Write` promises. */
  lemma {:induction false} FnvFromAppend(h: nat, s: seq<byte>, t: seq<byte>)
    requires h < TwoTo64
    ensures FnvFrom(h, s + t) == FnvFrom(FnvFrom(h, s), t)
    decreases |s|
  {
    if s == [] {
      assert s + t == t;
    } else {
      assert (s + t)[0] == s[0] && (s + t)[1..] == s[1..] + t;
      FnvFromAppend(FnvStep(h, s[0]), s[1..], t);
    }
  }

  /** The published FNV-1a 64 values for "", "a" and "foobar". */
  lemma {:induction false} HashVectors()
    ensures Fnv1a64([]) == 0xcbf2_9ce4_8422_2325
    ensures Fnv1a64([0x61]) == 0xaf63_dc4c_8601_ec8c
    ensures Fnv1a64([0x66, 0x6f, 0x6f, 0x62, 0x61, 0x72]) == 0x8594_4171_f739_67e8
  {
    assert 0xcbf2_9ce4_8422_2325 % 256 == 0x25 && Xor8(0x25, 0x61) == 0x44;
    assert FnvStep(0xcbf2_9ce4_8422_2325, 0x61) == 0xaf63_dc4c_8601_ec8c;
    assert 0xcbf2_9ce4_8422_2325 % 256 == 0x25 && Xor8(0x25, 0x66) == 0x43;
    assert FnvStep(0xcbf2_9ce4_8422_2325, 0x66) == 0xaf63_db4c_8601_ead9;
    assert 0xaf63_db4c_8601_ead9 % 256 == 0xd9 && Xor8(0xd9, 0x6f) == 0xb6;
    assert FnvStep(0xaf63_db4c_8601_ead9, 0x6f) == 0x898_5907_b541_d342;
    assert 0x898_5907_b541_d342 % 256 == 0x42 && Xor8(0x42, 0x6f) == 0x2d;
    assert FnvStep(0x898_5907_b541_d342, 0x6f) == 0xdcb2_7518_fed9_d577;
    assert 0xdcb2_7518_fed9_d577 % 256 == 0x77 && Xor8(0x77, 0x62) == 0x15;
    assert FnvStep(0xdcb2_7518_fed9_d577, 0x62) == 0xdd12_0e79_0c25_12af;
    assert 0xdd12_0e79_0c25_12af % 256 == 0xaf && Xor8(0xaf, 0x61) == 0xce;
    assert FnvStep(0xdd12_0e79_0c25_12af, 0x61) == 0xcac1_65af_a2fe_f40a;
    assert 0xcac1_65af_a2fe_f40a % 256 == 0xa && Xor8(0xa, 0x72) == 0x78;
    assert FnvStep(0xcac1_65af_a2fe_f40a, 0x72) == 0x8594_4171_f739_67e8;
    assert FnvFrom(0xcbf2_9ce4_8422_2325, [0x66, 0x6f, 0x6f, 0x62, 0x61, 0x72]) == FnvFrom(0xaf63_db4c_8601_ead9, [0x6f, 0x6f, 0x62, 0x61, 0x72]);
    assert FnvFrom(0xaf63_db4c_8601_ead9, [0x6f, 0x6f, 0x62, 0x61, 0x72]) == FnvFrom(0x898_5907_b541_d342, [0x6f, 0x62, 0x61, 0x72]);
    assert FnvFrom(0x898_5907_b541_d342, [0x6f, 0x62, 0x61, 0x72]) == FnvFrom(0xdcb2_7518_fed9_d577, [0x62, 0x61, 0x72]);
    assert FnvFrom(0xdcb2_7518_fed9_d577, [0x62, 0x61, 0x72]) == FnvFrom(0xdd12_0e79_0c25_12af, [0x61, 0x72]);
    assert FnvFrom(0xdd12_0e79_0c25_12af, [0x61, 0x72]) == FnvFrom(0xcac1_65af_a2fe_f40a, [0x72]);
    assert FnvFrom(0xcac1_65af_a2fe_f40a, [0x72]) == FnvFrom(0x8594_4171_f739_67e8, []);
    assert FnvFrom(0xcbf2_9ce4_8422_2325, [0x61]) == FnvFrom(0xaf63_dc4c_8601_ec8c, []);
  }

  // ---------------------------------------------------------------- the file

  /** Where a slot lives: the primary table or the collision arena. */
  datatype Slot = Primary(i: nat) | Collision(i: nat)

  datatype GetError = KeyNotFound | CannotRead

  /** `unsafe.Sizeof(Index{})` on a 64-bit platform: a pointer, a slice header and an `int64`. */
  const IndexSize: nat := 40

  /** The byte offset of the deleted flag inside a stored index record. */
  const DeletedFlag: nat := 29

  class File {
    var fd: seq<byte>
    var data: seq<byte>
    var Keys: seq<Key>
    var Collisions: seq<Key>
    var nextCollision: nat
    var collisionOffset: nat
    var capacity: nat

    /** A file over the given tables, its counters at zero as Go's zero value leaves them. */
    constructor (fd: seq<byte>, data: seq<byte>, keys: seq<Key>, collisions: seq<Key>, capacity: nat)
      requires capacity < TwoTo64
      ensures this.fd == fd && this.data == data && Keys == keys && Collisions == collisions
      ensures this.capacity == capacity && nextCollision == 0 && collisionOffset == 0
      ensures Valid()
    {
      this.fd := fd;
      this.data := data;
      Keys := keys;
      Collisions := collisions;
      this.capacity := capacity;
      nextCollision := 0;
      collisionOffset := 0;
    }

    /** The counters are a `uint32` and a `uint64`, the capacity a `uint64`. */
    predicate Valid()
      reads this
    {
      nextCollision < TwoTo32 && collisionOffset < TwoTo64 && capacity < TwoTo64
    }

    predicate InBounds(s: Slot)
      reads this
    {
      match s
      case Primary(i) => i < |Keys|
      case Collision(i) => i < |Collisions|
    }

    function KeyAt(s: Slot): Key
      reads this
      requires InBounds(s)
    {
      match s
      case Primary(i) => Keys[i]
      case Collision(i) => Collisions[i]
    }

    /**
     * Every collision pointer lands inside the arena, and a pointer from
     * the arena points further into it, so that every chain ends.
     */
    predicate Chained()
      reads this
    {
      (forall i :: 0 <= i < |Keys| && HasCollision(Keys[i]) ==> Position(Keys[i]) < |Collisions|) &&
      (forall j :: 0 <= j < |Collisions| && HasCollision(Collisions[j]) ==>
         j < Position(Collisions[j]) < |Collisions|)
    }

    /** Room left before the end of the chain: it shrinks at each step. */
    function Rank(s: Slot): nat
      reads this
    {
      match s
      case Primary(_) => |Collisions| + 1
      case Collision(j) => if j < |Collisions| then |Collisions| - j else 0
    }

    /** The slot a collision pointer leads to. */
    function Next(s: Slot): (n: Slot)
      reads this
      requires Chained() && InBounds(s) && HasCollision(KeyAt(s))
      ensures InBounds(n) && Rank(n) < Rank(s)
    {
      Collision(Position(KeyAt(s)))
    }

    /** The slots of the chain from `s`, in the order pointers are followed. */
    function Chain(s: Slot): (c: seq<Slot>)
      reads this
      requires Chained() && InBounds(s)
      ensures |c| > 0 && c[0] == s && forall t :: t in c ==> InBounds(t)
      decreases Rank(s)
    {
      if HasCollision(KeyAt(s)) then [s] + Chain(Next(s)) else [s]
    }

    /** The last slot of the chain from `s`. */
    function End(s: Slot): Slot
      reads this
      requires Chained() && InBounds(s)
    {
      var c := Chain(s); c[|c| - 1]
    }

    /** Following pointers from `s` until a slot holds `hash` or has no pointer. */
    function Walk(hash: nat, s: Slot): (w: Slot)
      reads this
      requires Chained() && InBounds(s)
      ensures InBounds(w)
      decreases Rank(s)
    {
      if Equal(KeyAt(s), hash) || !HasCollision(KeyAt(s)) then s else Walk(hash, Next(s))
    }

    /** The primary slot of a hash. */
    function Home(hash: nat): Slot
      reads this
      requires capacity > 0
    {
      Primary(hash % capacity)
    }

    /** The end of a chain has no pointer. */
    lemma {:induction false} EndHasNoCollision(s: Slot)
      requires Chained() && InBounds(s)
      ensures InBounds(End(s)) && !HasCollision(KeyAt(End(s)))
      decreases Rank(s)
    {
      if HasCollision(KeyAt(s)) {
        EndHasNoCollision(Next(s));
      }
    }

    /**
     * The walk stops on the chain; it stops on a slot holding `hash` exactly
     * when some slot of the chain holds it, and otherwise at the chain's end.
     */
    lemma {:induction false} WalkFindsChain(hash: nat, s: Slot)
      requires Chained() && InBounds(s)
      ensures Walk(hash, s) in Chain(s)
      ensures Equal(KeyAt(Walk(hash, s)), hash) <==> exists t :: t in Chain(s) && Equal(KeyAt(t), hash)
      ensures !Equal(KeyAt(Walk(hash, s)), hash) ==> Walk(hash, s) == End(s)
      decreases Rank(s)
    {
      if !Equal(KeyAt(s), hash) && HasCollision(KeyAt(s)) {
        WalkFindsChain(hash, Next(s));
        assert Chain(s) == [s] + Chain(Next(s));
      }
    }

    /**
     * `Find(hash)`: the primary slot when it is empty or holds `hash`;
     * otherwise the slot where the walk along its chain stops. Nothing
     * changes.
     */
    method Find(hash: nat) returns (s: Slot)
      requires capacity > 0 && hash % capacity < |Keys| && Chained()
      ensures s == Walk(hash, Home(hash)) && InBounds(s)
      ensures Empty(KeyAt(Home(hash))) || Equal(KeyAt(Home(hash)), hash) ==> s == Home(hash)
      ensures Equal(KeyAt(s), hash) || !HasCollision(KeyAt(s))
    {
      s := Primary(hash % capacity);
      if Empty(KeyAt(s)) || Equal(KeyAt(s), hash) {
        if Empty(KeyAt(s)) {
          EmptyFields(KeyAt(s));
        }
        return;
      }
      while !Equal(KeyAt(s), hash) && HasCollision(KeyAt(s))
        invariant InBounds(s) && Walk(hash, s) == Walk(hash, Home(hash))
        decreases Rank(s)
      {
        s := Collision(Position(KeyAt(s)));
      }
    }

    /** `Last(key)`: the end of the key's chain. Nothing changes. */
    method Last(s: Slot) returns (r: Slot)
      requires Chained() && InBounds(s)
      ensures r == End(s) && !HasCollision(KeyAt(r))
    {
      r := s;
      while HasCollision(KeyAt(r))
        invariant InBounds(r) && End(r) == End(s)
        decreases Rank(r)
      {
        assert Chain(r) == [r] + Chain(Next(r));
        r := Collision(Position(KeyAt(r)));
      }
      EndHasNoCollision(r);
    }

    /** `NextCollision()`: the counter bumped by one as a `uint32`, returned. */
    method NextCollision() returns (p: nat)
      requires Valid()
      modifies this
      ensures Valid() && nextCollision == (old(nextCollision) + 1) % TwoTo32 && p == nextCollision
      ensures fd == old(fd) && data == old(data) && Keys == old(Keys) && Collisions == old(Collisions)
      ensures collisionOffset == old(collisionOffset) && capacity == old(capacity)
    {
      nextCollision := (nextCollision + 1) % TwoTo32;
      p := nextCollision;
    }

    /** `collisionOff()`: the offset bumped by one slot record (24 bytes) as a `uint64`, returned. */
    method CollisionOff() returns (o: nat)
      requires Valid()
      modifies this
      ensures Valid() && collisionOffset == (old(collisionOffset) + 24) % TwoTo64 && o == collisionOffset
      ensures fd == old(fd) && data == old(data) && Keys == old(Keys) && Collisions == old(Collisions)
      ensures nextCollision == old(nextCollision) && capacity == old(capacity)
    {
      collisionOffset := (collisionOffset + 24) % TwoTo64;
      o := collisionOffset;
    }

    /**
     * `offset(hash)`: the file offset of the hash's primary record, 24 bytes
     * per slot, computed in `uint64`; while the table fits it is the start
     * of record `hash % capacity`, inside the table.
     */
    function SlotOffset(hash: nat): (o: nat)
      reads this
      requires capacity > 0
      ensures o < TwoTo64
      ensures capacity * 24 <= TwoTo64 ==> o % 24 == 0 && o / 24 == hash % capacity && o < capacity * 24
    {
      SlotInTable(hash % capacity, capacity);
      (hash % capacity * 24) % TwoTo64
    }

    /**
     * `Get(name)`: "Key not found" when the slot `Find` lands on is empty;
     * otherwise the index record's bytes copied from `data` at the slot's
     * offset, at most `IndexSize` of them, and an error when none remain.
     */
    method Get(name: seq<byte>) returns (r: Result<seq<byte>, GetError>)
      requires capacity > 0 && Fnv1a64(name) % capacity < |Keys| && Chained()
      requires var k := KeyAt(Walk(Fnv1a64(name), Home(Fnv1a64(name))));
               !Empty(k) ==> 0 <= Offset(k) <= |data|
      ensures var k := KeyAt(Walk(Fnv1a64(name), Home(Fnv1a64(name))));
              (r == Err(KeyNotFound) <==> Empty(k)) &&
              (r == Err(CannotRead) <==> !Empty(k) && Offset(k) == |data|) &&
              (r.Ok? ==> r.value == data[Offset(k)..Offset(k) + Min(IndexSize, |data| - Offset(k))])
    {
      var s := Find(Fnv1a64(name));
      var k := KeyAt(s);
      if Empty(k) {
        return Err(KeyNotFound);
      }
      var off := Offset(k);
      var n := Min(IndexSize, |data| - off);
      if n == 0 {
        return Err(CannotRead);
      }
      r := Ok(data[off..off + n]);
    }

    /**
     * `Del(key)`: writes the byte 1 at the deleted flag of the hash's
     * primary record; the file offset is computed in `uint64` and passed as
     * an `int64`, which `WriteAt` refuses when negative.
     */
    method Del(key: seq<byte>) returns (err: Option<OsFile.IoError>)
      requires capacity > 0
      modifies this
      ensures data == old(data) && Keys == old(Keys) && Collisions == old(Collisions)
      ensures nextCollision == old(nextCollision) && collisionOffset == old(collisionOffset) && capacity == old(capacity)
      ensures var pos := Int64Of((SlotOffset(Fnv1a64(key)) + DeletedFlag) % TwoTo64);
              if pos < 0 then err == Some(OsFile.NegativeOffset) && fd == old(fd)
              else err == None && fd == OsFile.WriteAt(old(fd), pos, [1])
    {
      var pos := Int64Of((SlotOffset(Fnv1a64(key)) + DeletedFlag) % TwoTo64);
      if pos < 0 {
        return Some(OsFile.NegativeOffset);
      }
      fd := OsFile.WriteAt(fd, pos, [1]);
      err := None;
    }
  }

  /** A slot's 24-byte record, when the table fits in `uint64`, starts inside the table and before any wrap. */
  lemma {:induction false} SlotInTable(slot: nat, capacity: nat)
    requires slot < capacity
    ensures var o := (slot * 24) % TwoTo64;
            capacity * 24 <= TwoTo64 ==> o % 24 == 0 && o / 24 == slot && o < capacity * 24
  {
    if capacity * 24 <= TwoTo64 {
      assert slot * 24 < TwoTo64;
      assert (slot * 24) % TwoTo64 == slot * 24;
    }
  }

  /**
   * While the table fits in half the `uint64` range, the position `Del`
   * computes is the deleted flag of the key's own primary record, never
   * wrapped or negative; writing 1 there sets that flag and leaves the flag
   * of every other slot as it was.
   */
  lemma {:induction false} DelMarksOwnSlot(fd: seq<byte>, capacity: nat, hash: nat, j: nat)
    requires 0 < capacity && capacity * 24 <= TwoTo64 / 2 - DeletedFlag
    requires j < capacity && j != hash % capacity && j * 24 + DeletedFlag < |fd|
    ensures var pos := Int64Of(((hash % capacity * 24) % TwoTo64 + DeletedFlag) % TwoTo64);
            pos == hash % capacity * 24 + DeletedFlag &&
            var g := OsFile.WriteAt(fd, pos, [1]);
            g[pos] == 1 && g[j * 24 + DeletedFlag] == fd[j * 24 + DeletedFlag]
  {
    var slot := hash % capacity;
    SlotInTable(slot, capacity);
    assert slot * 24 + DeletedFlag < TwoTo64 / 2;
  }

  /** Ids handed out by `NextCollision` from a fresh file: 1, 2, 3, …, never 0. */
  method CollisionIds(f: File, n: nat) returns (ids: seq<nat>)
    requires f.Valid() && f.nextCollision == 0 && n < TwoTo32
    modifies f
    ensures |ids| == n && forall i :: 0 <= i < n ==> ids[i] == i + 1
  {
    ids := [];
    while |ids| < n
      invariant f.Valid() && |ids| <= n && f.nextCollision == |ids|
      invariant forall i :: 0 <= i < |ids| ==> ids[i] == i + 1
    {
      var p := f.NextCollision();
      ids := ids + [p];
    }
  }

  /** Offsets handed out by `collisionOff` from a fresh file: 24, 48, 72, …. */
  method CollisionOffsets(f: File, n: nat) returns (offs: seq<nat>)
    requires f.Valid() && f.collisionOffset == 0 && 24 * n < TwoTo64
    modifies f
    ensures |offs| == n && forall i :: 0 <= i < n ==> offs[i] == 24 * (i + 1)
  {
    offs := [];
    while |offs| < n
      invariant f.Valid() && |offs| <= n && f.collisionOffset == 24 * |offs|
      invariant forall i :: 0 <= i < |offs| ==> offs[i] == 24 * (i + 1)
    {
      var o := f.CollisionOff();
      offs := offs + [o];
    }
  }
}
