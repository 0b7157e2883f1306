/**
 * An append-only value bucket (db/buckets/bucket.go): writes claim the
 * region `[offset, offset+len)` by bumping a write offset, a per-bucket key
 * limit refuses writes, and the file is grown to twice its size limit when
 * the offset reaches it.  The file is its byte contents.
 */
module BucketFile {
  import opened GoInts
  import opened Wrappers
  import opened OsFile
  import opened Paths
  import opened Decimal
  import BucketIterator

  /** The settings a bucket set is opened with, in their Go widths. */
  datatype Config = Config(MaxKeys: nat, MaxSize: int, MaxPerDir: int, MaxOpened: int)
  {
    predicate WellTyped() {
      InRange(Uint32, MaxKeys) && InRange(Int64, MaxSize) &&
      InRange(Int32, MaxPerDir) && InRange(Int16, MaxOpened)
    }
  }

  datatype WriteError = KeyLimitReached | TruncateFailed

  /** Why `nextBucket` fails: the folder could not be made, or the file not opened. */
  datatype NextError = MkdirFailed | OpenFailed

  /** The counters `Write` reads and updates; `sizeLimit` is a `uint64`. */
  datatype Counters = Counters(offset: int, sizeLimit: nat, resizeCount: nat, keysCount: int, keysLimit: nat)

  /** A write is refused once the incremented key count reaches the limit. */
  predicate Accepts(c: Counters) {
    c.keysCount + 1 < c.keysLimit
  }

  /** An accepted write of `n` bytes ends at or past the size limit, compared as `int64`. */
  predicate Grows(c: Counters, n: nat)
    requires c.sizeLimit < TwoTo64
  {
    c.offset + n >= Int64Of(c.sizeLimit)
  }

  /** `sizeLimit += sizeLimit` on a `uint64`. */
  function Doubled(limit: nat): nat {
    (limit + limit) % TwoTo64
  }

  /** `File.Truncate` refuses the doubled limit when it is negative as an `int64`. */
  predicate TruncateFails(c: Counters, n: nat)
    requires c.sizeLimit < TwoTo64
  {
    Accepts(c) && Grows(c, n) && Int64Of(Doubled(c.sizeLimit)) < 0
  }

  /** The counters after one `Write` of `n` bytes. */
  function AfterWrite(c: Counters, n: nat): Counters
    requires c.sizeLimit < TwoTo64
  {
    var counted := c.(keysCount := c.keysCount + 1);
    if !Accepts(c) then counted
    else if !Grows(c, n) then counted.(offset := c.offset + n)
    else counted.(offset := c.offset + n, sizeLimit := Doubled(c.sizeLimit),
                  resizeCount := (c.resizeCount + 1) % TwoTo32)
  }

  /** What `Write` returns: position, length, bucket id and error. */
  datatype Written = Written(off: int, size: int, id: nat, err: Option<WriteError>)

  function WriteResult(c: Counters, n: nat, id: nat): Written
    requires c.sizeLimit < TwoTo64
  {
    if !Accepts(c) then Written(0, 0, 0, Some(KeyLimitReached))
    else if TruncateFails(c, n) then Written(0, 0, 0, Some(TruncateFailed))
    else Written(c.offset, n, id, None)
  }

  /**
   * The file after a `Write` as the code does it: on a resize the file is
   * truncated to the doubled limit, which may cut off earlier records.
   */
  function FileAfterWriteAsWritten(file: seq<byte>, c: Counters, data: seq<byte>): seq<byte>
    requires c.offset >= 0 && c.sizeLimit < TwoTo64
  {
    if !Accepts(c) || TruncateFails(c, |data|) then file
    else
      var resized := if Grows(c, |data|) then Truncate(file, Doubled(c.sizeLimit)) else file;
      WriteAt(resized, c.offset, data)
  }

  /**
   * The file after a `Write` with the resize growing the file to the
   * doubled limit and never shrinking it; `data` is then placed at the old
   * offset.
   */
  function FileAfterWrite(file: seq<byte>, c: Counters, data: seq<byte>): seq<byte>
    requires c.offset >= 0 && c.sizeLimit < TwoTo64
  {
    if !Accepts(c) || TruncateFails(c, |data|) then file
    else
      var resized := if Grows(c, |data|) then Extend(file, Doubled(c.sizeLimit)) else file;
      WriteAt(resized, c.offset, data)
  }

  // ------------------------------------------------------------ properties

  /**
   * Every write counts a key, even a refused one; it is refused exactly
   * when the new count reaches the limit, and then nothing else changes.
   */
  lemma {:induction false} WriteCountsKeys(c: Counters, n: nat, id: nat)
    requires c.sizeLimit < TwoTo64
    ensures AfterWrite(c, n).keysCount == c.keysCount + 1
    ensures WriteResult(c, n, id).err == Some(KeyLimitReached) <==> c.keysCount + 1 >= c.keysLimit
    ensures c.keysCount + 1 >= c.keysLimit ==>
      AfterWrite(c, n) == c.(keysCount := c.keysCount + 1) && WriteResult(c, n, id) == Written(0, 0, 0, Some(KeyLimitReached))
  {
  }

  /**
   * An accepted write returns the old offset as its position and moves the
   * offset on by exactly the data's length.
   */
  lemma {:induction false} WriteClaimsRegion(c: Counters, n: nat, id: nat)
    requires c.sizeLimit < TwoTo64 && Accepts(c) && !TruncateFails(c, n)
    ensures WriteResult(c, n, id) == Written(c.offset, n, id, None)
    ensures AfterWrite(c, n).offset == c.offset + n
  {
  }

  /** Two accepted writes in a row get adjacent regions. */
  lemma {:induction false} ConsecutiveWritesAdjacent(c: Counters, n1: nat, n2: nat, id: nat)
    requires c.sizeLimit < TwoTo64 && Accepts(c) && !TruncateFails(c, n1)
    requires var c1 := AfterWrite(c, n1); c1.sizeLimit < TwoTo64 && Accepts(c1) && !TruncateFails(c1, n2)
    ensures var r1 := WriteResult(c, n1, id); var r2 := WriteResult(AfterWrite(c, n1), n2, id);
      r2.off == r1.off + r1.size
  {
  }

  /**
   * Reaching the limit doubles it exactly once, however far the offset goes
   * past it, and counts one resize; below `2^63` the limit never shrinks.
   */
  lemma {:induction false} ResizeDoublesOnce(c: Counters, n: nat)
    requires c.sizeLimit < TwoTo64 / 2
    ensures var c1 := AfterWrite(c, n);
      c1.sizeLimit >= c.sizeLimit &&
      (Accepts(c) && Grows(c, n) <==> c1.sizeLimit == 2 * c.sizeLimit && c1.resizeCount == (c.resizeCount + 1) % TwoTo32) &&
      (!(Accepts(c) && Grows(c, n)) ==> c1.sizeLimit == c.sizeLimit && c1.resizeCount == c.resizeCount)
  {
    var c1 := AfterWrite(c, n);
    Pow256Values();
    if Accepts(c) && Grows(c, n) {
      assert c1.sizeLimit == 2 * c.sizeLimit;
    } else {
      assert c1 == c.(keysCount := c.keysCount + 1, offset := c1.offset);
    }
  }

  /** The counters after a run of writes of the given sizes. */
  function AfterWrites(c: Counters, sizes: seq<nat>): (r: Counters)
    requires c.sizeLimit < TwoTo64
    ensures r.sizeLimit < TwoTo64
    decreases |sizes|
  {
    if sizes == [] then c else AfterWrites(AfterWrite(c, sizes[0]), sizes[1..])
  }

  /** How many writes of a run are accepted. */
  function AcceptedCount(c: Counters, sizes: seq<nat>): nat
    requires c.sizeLimit < TwoTo64
    decreases |sizes|
  {
    if sizes == [] then 0
    else (if Accepts(c) then 1 else 0) + AcceptedCount(AfterWrite(c, sizes[0]), sizes[1..])
  }

  /**
   * Whatever the sizes, a run of writes is accepted at most
   * `keysLimit - 1 - keysCount` times, so a fresh bucket takes at most
   * `keysLimit - 1` keys, and each write counts one key.
   */
  lemma {:induction false} KeyLimitBound(c: Counters, sizes: seq<nat>)
    requires c.sizeLimit < TwoTo64
    ensures AfterWrites(c, sizes).keysCount == c.keysCount + |sizes|
    ensures AcceptedCount(c, sizes) <= if c.keysLimit - 1 - c.keysCount > 0 then c.keysLimit - 1 - c.keysCount else 0
    decreases |sizes|
  {
    if sizes != [] {
      KeyLimitBound(AfterWrite(c, sizes[0]), sizes[1..]);
    }
  }

  /** Ten writes of five bytes from a size limit of 5: offset 50, limit 80, four resizes. */
  lemma {:induction false} ResizeScenario()
    ensures AfterWrites(Counters(0, 5, 0, 0, 100), seq(10, _ => 5)) == Counters(50, 80, 4, 10, 100)
  {
    Pow256Values();
    var sizes: seq<nat> := seq(10, _ => 5);
    var c := Counters(0, 5, 0, 0, 100);
    var i := 0;
    var want := [Counters(0, 5, 0, 0, 100), Counters(5, 10, 1, 1, 100), Counters(10, 20, 2, 2, 100),
                 Counters(15, 20, 2, 3, 100), Counters(20, 40, 3, 4, 100), Counters(25, 40, 3, 5, 100),
                 Counters(30, 40, 3, 6, 100), Counters(35, 40, 3, 7, 100), Counters(40, 80, 4, 8, 100),
                 Counters(45, 80, 4, 9, 100), Counters(50, 80, 4, 10, 100)];
    while i < 10
      invariant 0 <= i <= 10 && c == want[i]
      invariant AfterWrites(Counters(0, 5, 0, 0, 100), sizes) == AfterWrites(c, sizes[i..])
    {
      assert sizes[i..][0] == 5 && sizes[i..][1..] == sizes[i + 1..];
      c := AfterWrite(c, 5);
      i := i + 1;
    }
  }

  /**
   * An accepted write can be read back at the position it returned, even
   * when its resize truncates the file.
   */
  lemma {:induction false} WriteReadsBack(file: seq<byte>, c: Counters, data: seq<byte>, id: nat)
    requires c.offset >= 0 && c.sizeLimit < TwoTo64 && Accepts(c) && !TruncateFails(c, |data|)
    ensures var r := WriteResult(c, |data|, id);
      ReadAt(FileAfterWriteAsWritten(file, c, data), r.off, r.size) == Ok(data)
  {
    var resized := if Grows(c, |data|) then Truncate(file, Doubled(c.sizeLimit)) else file;
    ReadAtAfterWriteAt(resized, c.offset, data);
  }

  /**
   * The truncating resize and the growing one agree while the file is no
   * longer than the doubled limit, so only a file already past it loses
   * bytes.
   */
  lemma {:induction false} TruncateAgreesWhenShort(file: seq<byte>, c: Counters, data: seq<byte>)
    requires c.offset >= 0 && c.sizeLimit < TwoTo64 && |file| <= Doubled(c.sizeLimit)
    ensures FileAfterWriteAsWritten(file, c, data) == FileAfterWrite(file, c, data)
  {
    var n := Doubled(c.sizeLimit);
    if n == |file| {
      assert file[..n] == file;
    }
  }

  /**
   * A write keeps every byte of the file outside the region it claims, so
   * everything written before the current offset stays readable.
   */
  lemma {:induction false} EarlierRangesSurvive(file: seq<byte>, c: Counters, data: seq<byte>, roff: nat, size: nat)
    requires c.offset >= 0 && c.sizeLimit < TwoTo64
    requires roff + size <= c.offset && roff + size <= |file|
    ensures ReadAt(FileAfterWrite(file, c, data), roff, size) == ReadAt(file, roff, size)
  {
    if Accepts(c) && !TruncateFails(c, |data|) {
      var resized := if Grows(c, |data|) then Extend(file, Doubled(c.sizeLimit)) else file;
      assert ReadAt(resized, roff, size) == ReadAt(file, roff, size) by {
        if size > 0 {
          assert resized[roff..roff + size] == file[roff..roff + size];
        }
      }
      ReadAtAcrossWriteAt(resized, c.offset, data, roff, size);
    }
  }

  /**
   * As written, the resize truncates: from a limit of 1, a 5-byte write
   * followed by a 1-byte write leaves the first record's last byte zero.
   */
  lemma {:induction false} ResizeTruncatesEarlierRecord()
    ensures var c0 := Counters(0, 1, 0, 0, 100);
      var first: seq<byte> := [1, 1, 1, 1, 1];
      var f1 := FileAfterWriteAsWritten([], c0, first);
      var f2 := FileAfterWriteAsWritten(f1, AfterWrite(c0, 5), [7]);
      ReadAt(f1, 0, 5) == Ok(first) && ReadAt(f2, 0, 5) != Ok(first)
  {
    Pow256Values();
    var c0 := Counters(0, 1, 0, 0, 100);
    var first: seq<byte> := [1, 1, 1, 1, 1];
    var f1 := FileAfterWriteAsWritten([], c0, first);
    assert f1 == WriteAt(Truncate([], 2), 0, first);
    assert |f1| == 5 && f1[..5] == first;
    var c1 := AfterWrite(c0, 5);
    assert c1 == Counters(5, 2, 1, 1, 100);
    var f2 := FileAfterWriteAsWritten(f1, c1, [7]);
    var cut := Truncate(f1, 4);
    assert f2 == WriteAt(cut, 5, [7]);
    assert f2[4] == 0;
  }

  // ------------------------------------------------------------------ bucket

  /** The path of bucket `id` in folder `folder` under `dir`. */
  function BucketPath(dir: string, folder: int, id: int): string {
    NumberedPath(dir, folder, id, ".bucket")
  }

  /**
   * The file `nextBucket` opens: `filepath.Join` of the directory, the
   * folder number and `<id>.bucket`, which cleans the joined path
   * lexically (a leading `./`, doubled and trailing slashes go).
   */
  function BucketFileName(dir: string, folder: int, id: nat): string {
    Join([dir, Text(folder), Text(id) + ".bucket"])
  }

  /** A printed number, and a printed number followed by `.bucket`, are ordinary path elements. */
  lemma {:induction false} TextPlain(n: int)
    ensures Plain(Text(n)) && Plain(Text(n) + ".bucket")
  {
    var t := Text(n);
    TextChars(n);
    assert t[0] != '.';
    var f := t + ".bucket";
    assert |f| > 2;
    forall i | 0 <= i < |f| ensures f[i] != '/' {
      if i >= |t| {
        assert f[i] == ".bucket"[i - |t|];
      }
    }
  }

  /**
   * Under a directory that does not clean to `.` or `/`, the bucket file
   * is the cleaned directory followed by the folder and the file name;
   * for a directory that is already clean it is `BucketPath`.
   */
  lemma {:induction false} BucketFileNameOfDir(dir: string, folder: int, id: nat)
    requires dir != "" && Clean(dir) != "." && Clean(dir) != "/"
    ensures BucketFileName(dir, folder, id) == Clean(dir) + "/" + Text(folder) + "/" + Text(id) + ".bucket"
    ensures Clean(dir) == dir ==> BucketFileName(dir, folder, id) == BucketPath(dir, folder, id)
  {
    TextPlain(folder);
    TextPlain(id);
    JoinCleansDir(dir, Text(folder), Text(id) + ".bucket");
  }

  class Bucket {
    /** The contents of the open bucket file, and its name. */
    var file: seq<byte>
    var Name: string
    var Dir: string
    var offset: int
    var sizeLimit: nat
    var ID: nat
    var ResizeCount: nat
    var bucketsPerDir: int
    var keysCount: int
    var keysLimit: nat
    /** Whether the bucket's mutex is held for writing. */
    var locked: bool

    predicate Valid()
      reads this
    {
      0 <= offset && sizeLimit < TwoTo64 && ID < TwoTo32 && ResizeCount < TwoTo32 && 0 <= keysCount
    }

    function State(): Counters
      reads this
    {
      Counters(offset, sizeLimit, ResizeCount, keysCount, keysLimit)
    }

    /**
     * `OpenBucket`: bucket 1 over the contents of the newest bucket file,
     * writing resumed where the record scan of those contents ends.
     */
    constructor OpenBucket(root: string, conf: Config, name: string, contents: seq<byte>)
      requires conf.WellTyped()
      ensures Valid()
      ensures ID == 1 && Dir == root && Name == name && file == contents
      ensures offset == BucketIterator.ScanAll(contents).total
      ensures keysLimit == conf.MaxKeys && keysCount == 0 && ResizeCount == 0 && !locked
      ensures sizeLimit == conf.MaxSize % TwoTo64 && Int64Of(sizeLimit) == conf.MaxSize
      ensures bucketsPerDir == FromRaw(Int16, conf.MaxPerDir % 0x1_0000)
    {
      Pow256Values();
      BucketIterator.ScanTotalNonNegative(contents, 0, []);
      file := contents;
      Name := name;
      Dir := root;
      ID := 1;
      keysLimit := conf.MaxKeys;
      sizeLimit := conf.MaxSize % TwoTo64;
      ResizeCount := 0;
      bucketsPerDir := FromRaw(Int16, conf.MaxPerDir % 0x1_0000);
      keysCount := 0;
      offset := BucketIterator.ScanAll(contents).total;
      locked := false;
    }

    /** `&Bucket{ID: id}`: every other field zero, so no write is ever accepted. */
    constructor Zero(id: nat)
      requires id < TwoTo32
      ensures Valid() && ID == id && State() == Counters(0, 0, 0, 0, 0)
      ensures file == [] && Name == "" && Dir == "" && bucketsPerDir == 0 && !locked
    {
      file := [];
      Name := "";
      Dir := "";
      ID := id;
      offset := 0;
      sizeLimit := 0;
      ResizeCount := 0;
      bucketsPerDir := 0;
      keysCount := 0;
      keysLimit := 0;
      locked := false;
    }

    /**
     * `Write(data)`: counts a key, refuses at the key limit, claims
     * `[offset, offset+len)`, resizes under the lock when the offset
     * reaches the limit and places the data in the file.  A failed resize
     * returns with the lock still held, and a later `Write` would wait for
     * it forever: callers must not write to a locked bucket.
     */
    method Write(data: seq<byte>) returns (off: int, size: int, id: nat, err: Option<WriteError>)
      requires Valid() && !locked
      modifies this
      ensures Valid()
      ensures State() == AfterWrite(old(State()), |data|)
      ensures Written(off, size, id, err) == WriteResult(old(State()), |data|, ID)
      ensures file == FileAfterWriteAsWritten(old(file), old(State()), data)
      ensures locked <==> err == Some(TruncateFailed)
      ensures ID == old(ID) && Name == old(Name) && Dir == old(Dir) && bucketsPerDir == old(bucketsPerDir)
    {
      keysCount := keysCount + 1;
      var count := keysCount;
      var limit := keysLimit;
      if count >= limit {
        return 0, 0, 0, Some(KeyLimitReached);
      }
      offset := offset + |data|;
      var keyOffset := offset - |data|;
      if offset >= Int64Of(sizeLimit) {
        locked := true;
        var failed := Resize();
        if failed {
          return 0, 0, 0, Some(TruncateFailed);
        }
        locked := false;
      }
      off, size := WriteData(keyOffset, data);
      return off, size, ID, None;
    }

    /**
     * `resize`: doubles the limit, truncates the file to it (cutting off
     * anything past it) and counts the resize.
     */
    method Resize() returns (failed: bool)
      requires Valid()
      modifies this
      ensures Valid()
      ensures sizeLimit == Doubled(old(sizeLimit)) && ResizeCount == (old(ResizeCount) + 1) % TwoTo32
      ensures failed <==> Int64Of(sizeLimit) < 0
      ensures file == if failed then old(file) else Truncate(old(file), sizeLimit)
      ensures offset == old(offset) && keysCount == old(keysCount) && keysLimit == old(keysLimit)
      ensures ID == old(ID) && Name == old(Name) && Dir == old(Dir) && bucketsPerDir == old(bucketsPerDir)
      ensures locked == old(locked)
    {
      sizeLimit := Doubled(sizeLimit);
      failed := Int64Of(sizeLimit) < 0;
      if !failed {
        file := Truncate(file, sizeLimit);
      }
      ResizeCount := (ResizeCount + 1) % TwoTo32;
    }

    /** `write`: `WriteAt` at `off`, returning the offset and the length written. */
    method WriteData(off: nat, data: seq<byte>) returns (o: int, n: int)
      modifies this
      ensures o == off && n == |data|
      ensures file == WriteAt(old(file), off, data)
      ensures offset == old(offset) && sizeLimit == old(sizeLimit) && ResizeCount == old(ResizeCount)
      ensures keysCount == old(keysCount) && keysLimit == old(keysLimit) && locked == old(locked)
      ensures ID == old(ID) && Name == old(Name) && Dir == old(Dir) && bucketsPerDir == old(bucketsPerDir)
    {
      file := WriteAt(file, off, data);
      return off, |data|;
    }

    /** `Read(offset, size)`: exactly `size` bytes at `offset`, or the error of `ReadAt`. */
    method Read(off: int, size: int) returns (r: Result<seq<byte>, IoError>)
      requires size >= 0
      ensures r.Ok? <==> 0 <= off && (size == 0 || off + size <= |file|)
      ensures r.Ok? ==> |r.value| == size && forall i :: 0 <= i < size ==> r.value[i] == file[off + i]
      ensures off < 0 ==> r == Err(NegativeOffset)
    {
      r := ReadAt(file, off, size);
    }

    /**
     * `nextBucket`: bucket `ID+1` lives in folder
     * `ceil((ID+1) / bucketsPerDir)`.  When that folder cannot be made
     * nothing changes.  Otherwise the bucket moves to the new id over the
     * opened file's `contents` and resets the offset, the key count and
     * the resize count, even when the file could not be opened.
     */
    method NextBucket(dirMade: bool, contents: Option<seq<byte>>) returns (r: Result<string, NextError>)
      requires Valid() && bucketsPerDir != 0
      modifies this
      ensures Dir == old(Dir) && bucketsPerDir == old(bucketsPerDir) && locked == old(locked)
      ensures sizeLimit == old(sizeLimit) && keysLimit == old(keysLimit)
      ensures !dirMade ==> r == Err(MkdirFailed) && unchanged(this)
      ensures dirMade ==>
        Valid() && ID == (old(ID) + 1) % TwoTo32 && offset == 0 && keysCount == 0 && ResizeCount == 0 &&
        (contents.Some? ==> r == Ok(Name) && Name == BucketFileName(Dir, CeilQuot(ID, bucketsPerDir), ID) && file == contents.value) &&
        (contents.None? ==> r == Err(OpenFailed) && Name == "" && file == [])
    {
      var id := (ID + 1) % TwoTo32;
      var folderId := CeilQuot(id, bucketsPerDir);
      if !dirMade {
        return Err(MkdirFailed);
      }
      var name := BucketFileName(Dir, folderId, id);
      ID := id;
      if contents.Some? {
        file, Name := contents.value, name;
        r := Ok(name);
      } else {
        file, Name := [], "";
        r := Err(OpenFailed);
      }
      offset := 0;
      keysCount := 0;
      ResizeCount := 0;
    }
  }

  /** `TestBucketRead` in db/bucket_test.go: "value1" written to a fresh bucket reads back at 0. */
  method WriteThenRead() returns (back: Result<seq<byte>, IoError>)
    ensures back == Ok([118, 97, 108, 117, 101, 49])
  {
    var value: seq<byte> := [118, 97, 108, 117, 101, 49];
    var b := new Bucket.OpenBucket("db", Config(10, 5, 2, 100), "db/1/1.bucket", []);
    assert BucketIterator.ScanAll([]).total == 0;
    Pow256Values();
    var off, size, id, err := b.Write(value);
    WriteReadsBack([], Counters(0, 5, 0, 0, 10), value, 1);
    back := b.Read(off, size);
    assert back.value == value;
  }

  lemma {:induction false} TestDirPieces()
    ensures "./db/collections/test/" == "./" + "db" + "/" + "collections" + "/" + "test" + "/"
    ensures Plain("db") && Plain("collections") && Plain("test")
  {
  }

  lemma {:induction false} TestDigits()
    ensures Text(2) == "2" && Text(3) == "3" && Text(4) == "4"
  {
  }

  lemma {:induction false} TestName3()
    ensures "db" + "/" + "collections" + "/" + "test" + "/" + "2" + "/" + "3" + ".bucket" == "db/collections/test/2/3.bucket"
  {
  }

  lemma {:induction false} TestName4()
    ensures "db" + "/" + "collections" + "/" + "test" + "/" + "2" + "/" + "4" + ".bucket" == "db/collections/test/2/4.bucket"
  {
  }

  /** The directory of `TestNextBucket`, `./db/collections/test/`, loses its `./` and trailing slash in the bucket names. */
  lemma {:induction false} TestBucketNames(dir: string)
    requires dir == "./db/collections/test/"
    ensures BucketFileName(dir, 2, 3) == "db/collections/test/2/3.bucket"
    ensures BucketFileName(dir, 2, 4) == "db/collections/test/2/4.bucket"
  {
    TestDirPieces();
    CleanDotDir("db", "collections", "test");
    BucketFileNameOfDir(dir, 2, 3);
    BucketFileNameOfDir(dir, 2, 4);
    TestDigits();
    TestName3();
    TestName4();
  }

  /**
   * `TestNextBucket`: from bucket 2 with two per folder under
   * `./db/collections/test/`, the next buckets are 3 and 4, both in
   * folder 2, at the cleaned paths the test expects.
   */
  method NextBucketScenario() returns (id1: nat, name1: string, id2: nat, name2: string)
    ensures id1 == 3 && name1 == "db/collections/test/2/3.bucket"
    ensures id2 == 4 && name2 == "db/collections/test/2/4.bucket"
  {
    var b := new Bucket.Zero(2);
    b.Dir, b.bucketsPerDir := "./db/collections/test/", 2;
    TestBucketNames(b.Dir);
    var r1 := b.NextBucket(true, Some([]));
    id1, name1 := b.ID, r1.value;
    var r2 := b.NextBucket(true, Some([]));
    id2, name2 := b.ID, r2.value;
  }

  /**
   * With a negative size limit (`MaxSize = -1`, a limit of `2^64-1`) the
   * first write resizes to a limit that is negative as an `int64`, so
   * `Truncate` fails and the write returns with the lock held.
   */
  method FailedResizeHoldsLock() returns (err: Option<WriteError>, locked: bool)
    ensures err == Some(TruncateFailed) && locked
  {
    var b := new Bucket.OpenBucket("db", Config(10, -1, 2, 100), "db/1/1.bucket", []);
    assert BucketIterator.ScanAll([]).total == 0;
    Pow256Values();
    var off, size, id;
    off, size, id, err := b.Write([1]);
    locked := b.locked;
  }
}
