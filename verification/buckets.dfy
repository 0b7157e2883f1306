/**
 * The set of open buckets (db/buckets/buckets.go): a map from bucket id to
 * a reference-counted item, and the last bucket, which new keys go into.
 */
module BucketSet {
  import opened GoInts
  import opened BucketFile
  import Paths

  /** An open bucket and how many users hold it. */
  class Item {
    const bucket: Bucket
    var refCount: int

    /** `Item(b)`: held once. */
    constructor (b: Bucket)
      ensures bucket == b && refCount == 1
    {
      bucket := b;
      refCount := 1;
    }
  }

  class Buckets {
    var items: map<nat, Item>
    var Root: string
    var MaxOpened: int
    var MaxPerDir: int
    var last: Item

    /** The buckets the items hold. */
    function Held(): set<Bucket>
      reads this
    {
      set it | it in items.Values :: it.bucket
    }

    /**
     * Each id maps to an item whose bucket has that id (so no two ids share
     * an item), and the last item is the one of its bucket's id.
     */
    predicate Valid()
      reads this, Held(), last.bucket
    {
      LastID() in items && items[LastID()] == last &&
      forall k :: k in items ==> items[k].bucket.ID == k
    }

    /** The reference count of every open id. */
    function Counts(): (m: map<nat, int>)
      reads this, items.Values
      ensures m.Keys == items.Keys
    {
      map k | k in items :: items[k].refCount
    }

    /** The id of the last bucket. */
    function LastID(): nat
      reads this, last.bucket
    {
      last.bucket.ID
    }

    /** The set as `Open` builds it around its first bucket. */
    constructor Init(root: string, conf: Config, first: Bucket)
      ensures Root == root && MaxOpened == conf.MaxOpened && MaxPerDir == conf.MaxPerDir
      ensures fresh(last) && last.bucket == first && items == map[first.ID := last]
      ensures Counts() == map[first.ID := 1]
      ensures Valid()
    {
      var item := new Item(first);
      var none: map<nat, Item> := map[];
      items := none[first.ID := item];
      Root := root;
      MaxOpened := conf.MaxOpened;
      MaxPerDir := conf.MaxPerDir;
      last := item;
    }

    /** `Last()`: the last bucket, held once more; nothing else changes. */
    method Last() returns (b: Bucket)
      requires Valid()
      modifies last
      ensures Valid() && b == last.bucket
      ensures Counts() == old(Counts())[LastID() := old(Counts())[LastID()] + 1]
    {
      last.refCount := last.refCount + 1;
      b := last.bucket;
    }

    /**
     * `Next(prev)`: the last bucket when its id is past `prev`, with no
     * change; otherwise a new empty bucket `last.ID+1`, installed as the
     * last one and held once.
     */
    method Next(prev: nat) returns (b: Bucket)
      requires Valid()
      modifies this
      ensures Valid() && b == last.bucket
      ensures old(LastID()) > prev ==> last == old(last) && items == old(items) && Counts() == old(Counts())
      ensures old(LastID()) <= prev ==>
        fresh(last) && fresh(b) && LastID() == (old(LastID()) + 1) % TwoTo32 &&
        b.State() == Counters(0, 0, 0, 0, 0) && items == old(items)[LastID() := last] &&
        Counts() == old(Counts())[LastID() := 1]
      ensures Root == old(Root) && MaxPerDir == old(MaxPerDir) && MaxOpened == old(MaxOpened)
    {
      var current := last.bucket;
      if current.ID > prev {
        return current;
      }
      var next := Open((current.ID + 1) % TwoTo32);
      var item := new Item(next);
      last := item;
      items := items[next.ID := item];
      b := next;
    }

    /** `Path(id)`: `Root/ceil(id/MaxPerDir)/id.bucket`. */
    function Path(id: nat): string
      reads this
      requires MaxPerDir != 0
    {
      BucketPath(Root, CeilQuot(id, MaxPerDir), id)
    }

    /** `Open(id)`: a new bucket with that id and everything else zero. */
    method Open(id: nat) returns (b: Bucket)
      requires id < TwoTo32
      ensures fresh(b) && b.Valid() && b.ID == id && b.State() == Counters(0, 0, 0, 0, 0)
    {
      b := new Bucket.Zero(id);
    }

    /** `Add(id)`: an open id is held once more; a new one is opened and held once. */
    method Add(id: nat) returns (it: Item)
      requires Valid() && id < TwoTo32
      modifies this, items.Values
      ensures Valid() && last == old(last) && id in items && it == items[id]
      ensures id in old(items) ==> items == old(items) && Counts() == old(Counts())[id := old(Counts())[id] + 1]
      ensures id !in old(items) ==>
        fresh(it) && fresh(it.bucket) && items == old(items)[id := it] && Counts() == old(Counts())[id := 1] &&
        it.bucket.State() == Counters(0, 0, 0, 0, 0)
      ensures Root == old(Root) && MaxPerDir == old(MaxPerDir) && MaxOpened == old(MaxOpened)
    {
      if id in items {
        it := items[id];
        it.refCount := it.refCount + 1;
        return;
      }
      var b := Open(id);
      it := new Item(b);
      items := items[b.ID := it];
    }

    /** `Get(id)`: the bucket with that id, held once more, opened first when needed. */
    method Get(id: nat) returns (b: Bucket)
      requires Valid() && id < TwoTo32
      modifies this, items.Values
      ensures Valid() && last == old(last) && id in items && b == items[id].bucket && b.ID == id
      ensures id in old(items) ==> items == old(items) && Counts() == old(Counts())[id := old(Counts())[id] + 1]
      ensures id !in old(items) ==>
        items == old(items)[id := items[id]] && fresh(items[id]) && fresh(b) && Counts() == old(Counts())[id := 1]
      ensures Root == old(Root) && MaxPerDir == old(MaxPerDir) && MaxOpened == old(MaxOpened)
    {
      if id in items {
        var it := items[id];
        it.refCount := it.refCount + 1;
        return it.bucket;
      }
      var it := Add(id);
      b := it.bucket;
    }

    /** `Put(b)`: gives back one hold on the bucket's item. */
    method Put(b: Bucket)
      requires Valid() && b.ID in items
      modifies items.Values
      ensures Valid() && Counts() == old(Counts())[b.ID := old(Counts())[b.ID] - 1]
    {
      var it := items[b.ID];
      it.refCount := it.refCount - 1;
    }
  }

  /**
   * `Open(root, conf)`: the set holding only bucket 1, opened over the
   * newest bucket file's contents, as the last bucket, held once.
   */
  method Open(root: string, conf: Config, name: string, contents: seq<byte>) returns (bs: Buckets)
    requires conf.WellTyped()
    ensures fresh(bs) && fresh(bs.last) && bs.Valid() && bs.Root == root && bs.MaxPerDir == conf.MaxPerDir
    ensures bs.LastID() == 1 && bs.items == map[1 := bs.last] && bs.Counts() == map[1 := 1]
  {
    var bucket := new Bucket.OpenBucket(root, conf, name, contents);
    bs := new Buckets.Init(root, conf, bucket);
  }

  /** Different ids never share a path. */
  lemma {:induction false} PathsDistinct(bs: Buckets, i: nat, j: nat)
    requires bs.MaxPerDir != 0 && i != j
    ensures bs.Path(i) != bs.Path(j)
  {
    if bs.Path(i) == bs.Path(j) {
      Paths.NumberedPathInjective(bs.Root, CeilQuot(i, bs.MaxPerDir), i, CeilQuot(j, bs.MaxPerDir), j, ".bucket");
    }
  }

  /** `Last` then `Put` of what it returned: every count is as before. */
  method LastThenPut(bs: Buckets)
    requires bs.Valid()
    modifies bs.items.Values
    ensures bs.Valid() && bs.items == old(bs.items) && bs.last == old(bs.last)
    ensures bs.Counts() == old(bs.Counts())
  {
    var b := bs.Last();
    bs.Put(b);
  }

  /**
   * `Get(id)` then `Put` of what it returned: an open id keeps its count,
   * a new one is left open and held by nobody.
   */
  method GetThenPut(bs: Buckets, id: nat)
    requires bs.Valid() && id < TwoTo32
    modifies bs, bs.items.Values
    ensures bs.Valid() && bs.last == old(bs.last)
    ensures forall it :: it in bs.items.Values ==> it in old(bs.items.Values) || fresh(it)
    ensures bs.Counts() == old(bs.Counts())[id := if id in old(bs.items) then old(bs.Counts())[id] else 0]
  {
    ghost var before := bs.Counts();
    var b := bs.Get(id);
    ghost var held := bs.Counts();
    bs.Put(b);
    HoldThenRelease(before, held, bs.Counts(), id);
  }

  /** One more hold on `id`, then one less: the count before, or 0 for an id that was not open. */
  lemma {:induction false} HoldThenRelease(before: map<nat, int>, held: map<nat, int>, after: map<nat, int>, id: nat)
    requires held == before[id := if id in before then before[id] + 1 else 1]
    requires after == held[id := held[id] - 1]
    ensures after == before[id := if id in before then before[id] else 0]
  {
    if id in before {
      assert after == before;
    }
  }

  /**
   * Taking the last bucket and putting it back, any number of times, leaves
   * bucket 1 of a fresh set held exactly once.
   */
  method LastPutBalanced(rounds: nat) returns (count: int)
    ensures count == 1
  {
    var bs := Open("db", Config(2, 1000000, 2, 100), "db/1/1.bucket", []);
    var i := 0;
    while i < rounds
      invariant fresh(bs.last) && bs.Valid() && bs.items == map[1 := bs.last] && bs.Counts() == map[1 := 1]
    {
      LastThenPut(bs);
      i := i + 1;
    }
    count := bs.items[1].refCount;
  }

  /**
   * Getting and putting back ids 1 to 5 in turn, round after round: bucket 1 stays held once,
   * the buckets opened on the way end up held by nobody.
   */
  method GetPutBalanced(rounds: nat) returns (counts: map<nat, int>)
    requires rounds >= 5
    ensures counts == map[1 := 1, 2 := 0, 3 := 0, 4 := 0, 5 := 0]
  {
    var bs := Open("db", Config(2, 1000000, 2, 100), "db/1/1.bucket", []);
    GetPutRounds(bs, rounds);
    counts := bs.Counts();
    BalancedAfterFive(counts, rounds);
  }

  /** `rounds` rounds of getting and putting back ids 1 to 5 in turn, on a set where only bucket 1 is open. */
  method GetPutRounds(bs: Buckets, rounds: nat)
    requires bs.Valid() && bs.Counts() == map[1 := 1]
    modifies bs, bs.items.Values
    ensures bs.Valid() && Balanced(bs.Counts(), rounds)
  {
    ghost var m: map<nat, int> := map[1 := 1];
    var i := 0;
    while i < rounds
      invariant i <= rounds
      invariant bs.Valid() && forall it :: it in bs.items.Values ==> it in old(bs.items.Values) || fresh(it)
      invariant bs.Counts() == m && Balanced(m, i)
    {
      var id := i % 5 + 1;
      GetThenPut(bs, id);
      BalancedStep(m, i);
      m := m[id := if id in m then m[id] else 0];
      i := i + 1;
    }
  }

  /** The ids open after `i` rounds of the get-and-put cycle over 1 to 5. */
  function Opened(i: nat): set<nat> {
    if i <= 1 then {1} else if i == 2 then {1, 2} else if i == 3 then {1, 2, 3}
    else if i == 4 then {1, 2, 3, 4} else {1, 2, 3, 4, 5}
  }

  /** The counts after `i` rounds: ids opened so far, bucket 1 held once, the others by nobody. */
  predicate Balanced(m: map<nat, int>, i: nat) {
    m.Keys == Opened(i) && forall k :: k in m ==> m[k] == if k == 1 then 1 else 0
  }

  /** After five rounds or more every id from 1 to 5 is open, bucket 1 held once and the others by nobody. */
  lemma {:induction false} BalancedAfterFive(m: map<nat, int>, i: nat)
    requires Balanced(m, i) && i >= 5
    ensures m == map[1 := 1, 2 := 0, 3 := 0, 4 := 0, 5 := 0]
  {
    assert m.Keys == {1, 2, 3, 4, 5};
  }

  lemma {:induction false} BalancedStep(m: map<nat, int>, i: nat)
    requires Balanced(m, i)
    ensures var id := i % 5 + 1; Balanced(m[id := if id in m then m[id] else 0], i + 1)
  {
    if i >= 5 {
      assert i % 5 + 1 in Opened(i);
    }
  }
}
