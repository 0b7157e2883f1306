# bytedb storage core in Dafny

A model of the storage layer of bytedb, an embedded key-value store written
in Go, with proofs about it. It covers these parts:

- **Value buckets** (`BucketFile`, `BucketSet`). A bucket is an append-only
  file of records. `Write` claims the next region of the file and enforces
  a key limit. It doubles the size limit when the write offset reaches it.
  The registry hands buckets out with reference counts and rotates to the
  next bucket id.
- **Records and the recovery scan** (`BucketKV`, `BucketIterator`,
  `DbIterator`). A record is a 4-byte big-endian length followed by the
  value. The scan reads records until a zero length or the end of the data.
  It reports the records, their total size and the read error.
- **The hash index** (`IndexKey`, `IndexFile`). A slot is 20 bytes: hash,
  collision position and record offset. The index file has a primary table
  addressed by `hash mod capacity` and collision chains through a second
  table. Keys are hashed with FNV-1a 64.
- **Directory layout** (`DirLayout`). File `id` lives at
  `root/ceil(id/perDir)/id.ext`. The largest existing id is found from the
  directory listings.
- **Fixed-size buffers** (`DataBlock`, `IndexBlock`, `MmapFile`). These are
  data and index blocks over a byte array, and block-numbered reads and
  writes over a memory-mapped file.
- **The two bitbox codecs** (`LibBitbox`, `DbBitbox`). The first copies
  values in native byte order. The second writes big-endian integers, with
  a length prefix for slices. Each is proved to round-trip where the code
  makes it do so, and counterexamples are given where it does not.

State that the Go code changes in place is modelled with classes, arrays and
`modifies` clauses. A loop becomes a `while` loop with invariants, proved
against a recursive function that states the result. Encoders and parsers
are functions.

Shared pieces live in their own modules:

- `GoInts`: fixed-width integers, two's complement, and big- and
  little-endian byte order.
- `Decimal`: `%d` formatting and `strconv.Atoi`.
- `Paths`: how paths are built from numbers, and the lexical cleaning that `filepath.Join` and `filepath.Clean` apply on a slash-separated system.
- `OsFile`: `WriteAt`, `ReadAt` and `Truncate` on a file held as a byte
  sequence.
- `GoCopy`: Go's `copy`.
- `Wrappers`: `Option` and `Result`.

Go panics, such as a slice index out of range or a division by zero,
become preconditions. Returned errors become `Option` or `Result` values.

Some behaviour of the code that looks provisional is kept as written:

- `OpenBucket` always gives the bucket id 1, whichever bucket file it
  resumes (db/buckets/bucket.go:58-60).
- `Buckets.Open(id)` builds a bucket with only its id set. Its key limit is
  0, so every `Write` to it is refused (db/buckets/buckets.go:147-160).
- `File.Get` reports "Key not found" only when the slot `Find` stops at is
  empty. When the hash is absent from a non-empty chain, it returns the
  record of another key, the last one of the chain
  (db/index/index.go:165-170).
- A failed resize returns with the bucket's mutex still locked
  (db/buckets/bucket.go:170-174).

## Model

| member | source | states |
|---|---|---|
| BucketKV.Record | db/buckets/kv.go:31-48 | a record is 4 + len(val) bytes long; its first four bytes read as the big-endian `uint32(len(val))` and the rest is the value |
| BucketKV.PayloadOfRecord | db/buckets/kv.go:20-28 | taking away the four prefix bytes of a record gives back the value, for every value |
| BucketKV.KV.NewKV | db/buckets/kv.go:15-17 | the pair holds exactly the given key bytes and value |
| BucketKV.KV.FromBytes | db/buckets/kv.go:20-28 | `Val` becomes the input minus its first four bytes, whatever they hold (empty when the input is shorter than five), and the key is kept |
| BucketKV.KV.Bytes | db/buckets/kv.go:31-48 | the record of `Val`: four length bytes holding `len(Val)` mod 2^32, then `Val`; the key is not encoded |
| BucketKV.RecordRoundTrip | db/buckets/kv.go:15-48 | `FromBytes(Bytes())` on a fresh pair restores the value and keeps the key |
| BucketIterator.ScanStep | db/buckets/iterator.go:27-63 | one loop turn: a zero prefix stops with what was collected; a short payload fails with the total already counting `size+4`; a record that ends the data stops; otherwise the scan goes on after the record |
| BucketIterator.ZeroPrefixStops | db/buckets/iterator.go:43-45 | four zero bytes end the scan successfully with the records so far, whatever follows |
| BucketIterator.ScanTotalNonNegative | db/buckets/iterator.go:25-48 | the reported total never falls below the total the scan started from |
| BucketIterator.ScanParses | db/buckets/iterator.go:27-65 | a successful scan keeps the records collected so far, appends the first records of the data in file order, non-empty, and adds the wrapping `size+4` of each to the total |
| BucketIterator.ParsedCons | db/buckets/iterator.go:47-62 | what a successful scan promises of the data after one record also holds of the data with that record in front |
| BucketIterator.ParsedLast | db/buckets/iterator.go:58-62 | a record that fills the rest of the data is the last one returned, with its cost counted |
| BucketIterator.ParsedNothing | db/buckets/iterator.go:43-45 | a scan that stops where it starts has found nothing new |
| BucketIterator.RecordAt | db/buckets/iterator.go:31-58 | a prefix that fits the remaining data is followed by exactly the record `Bytes` writes for that payload |
| BucketIterator.Records | db/buckets/kv.go:31-48 | several `Bytes` records one after the other take `Σ(len(val)+4)` bytes |
| BucketIterator.CostsOfStorable | db/buckets/iterator.go:48 | for values shorter than 2^32-4 bytes the wrapping `uint32(size+4)` costs add up to `Σ(len(val)+4)` |
| BucketIterator.RecordsHead | db/buckets/kv.go:31-48 | the first stored record, whatever follows the records, reads as its value's length, then its value, then the remaining records |
| BucketIterator.RecordThen | db/buckets/kv.go:31-48 | a record followed by anything reads as its length, its value, then what follows |
| BucketIterator.StorableTail | db/buckets/iterator.go:27-63 | the values after the first stored one are storable too |
| BucketIterator.ScanFirstRecord | db/buckets/iterator.go:31-62 | the first stored record is read as one loop turn: it is collected, its `len+4` counted, and the scan stops or goes on after it |
| BucketIterator.ScanOver | db/buckets/iterator.go:31-62 | a record of a non-empty value at the front of the data is read as one loop turn |
| BucketIterator.ScanRecords | db/buckets/iterator.go:27-65 | scanning the concatenated `Bytes()` of non-empty values returns those values in order, no error, and a total equal to the number of bytes |
| BucketIterator.ScanSkipsFirst | db/buckets/iterator.go:27-63 | of two or more stored records the first is read and the scan continues on the rest |
| BucketIterator.ScanLast | db/buckets/iterator.go:58-65 | a single stored record is read and the scan ends with no error |
| BucketIterator.SkipFirst | db/buckets/iterator.go:27-63 | with a zero prefix after the records, the first record is read and the scan continues on the rest |
| BucketIterator.ScanStopsAtZeroPrefix | db/buckets/iterator.go:43-45 | records followed by a zero prefix scan to those records and their total, whatever bytes come after the prefix: those are never read |
| BucketIterator.StopsAfterFirst | db/buckets/iterator.go:27-63 | if the records after the first scan as claimed, so do all of them |
| BucketIterator.StopsAtOnce | db/buckets/iterator.go:43-45 | with no records the zero prefix stops the scan at once |
| BucketIterator.Iterate | db/buckets/iterator.go:14-66 | the loop returns, as fresh KVs with only `Val` set, exactly the records, total and error that the recursive scan of the data describes |
| DbIterator.Iterate | db/iterator.go:14-69 | the older copy of the scan: one key per record with its bytes and its size, the total and the error, as the recursive scan describes them |
| DbIterator.IterateWritten | db/iterator.go:14-69 | scanning non-empty records written one after the other returns one key per value, in order, with its length, no error, and the number of bytes written as total |
| BucketFile.WriteCountsKeys | db/buckets/bucket.go:149-155 | every `Write` adds one to the key count, refused or not; it fails with the key-limit error exactly when the new count reaches the limit, and then the offset, size limit and resize count are unchanged |
| BucketFile.AfterWrite | db/buckets/bucket.go:149-211 | the counters after one `Write`: the key count always goes up, and an accepted write moves the offset and may double the limit; `WriteCountsKeys`, `WriteClaimsRegion`, `ResizeDoublesOnce` and `KeyLimitBound` state its properties |
| BucketFile.FileAfterWriteAsWritten | db/buckets/bucket.go:166-206 | the file after one `Write`, truncated to the doubled limit when it resizes, then the data at the old offset; `WriteReadsBack`, `TruncateAgreesWhenShort` and `ResizeTruncatesEarlierRecord` state its properties |
| BucketFile.WriteClaimsRegion | db/buckets/bucket.go:157-198 | an accepted write returns the old offset, `len(data)` and the bucket id, and moves the offset by exactly `len(data)` |
| BucketFile.ConsecutiveWritesAdjacent | db/buckets/bucket.go:157-198 | two accepted writes in a row get adjacent ranges: the second starts where the first ends |
| BucketFile.ResizeDoublesOnce | db/buckets/bucket.go:165-206 | the size limit never shrinks; it doubles, and the resize count goes up by one, exactly when an accepted write reaches the limit, however far it overshoots; otherwise both stay |
| BucketFile.KeyLimitBound | db/buckets/bucket.go:149-155 | after any run of writes the key count has grown by their number, and at most `keysLimit - 1 - keysCount` of them were accepted |
| BucketFile.ResizeScenario | db/bucket_test.go:53-72 | from size limit 5 and a large key limit, ten 5-byte writes end at offset 50 with size limit 80 (after four resizes) |
| BucketFile.WriteReadsBack | db/buckets/bucket.go:192-240 | after an accepted write, reading the returned position and size gives back exactly the data written, with the file updated as the code does it (a resize truncating it to the doubled limit) |
| BucketFile.EarlierRangesSurvive | db/buckets/bucket.go:192-228 | with the resize growing the file, a write changes no byte before the old offset: every earlier range reads the same |
| BucketFile.TruncateAgreesWhenShort | db/buckets/bucket.go:201-206 | while the file is no longer than the doubled limit, the truncating resize and a growing one leave the same file, so only a file already past the new limit loses bytes |
| BucketFile.ResizeTruncatesEarlierRecord | db/buckets/bucket.go:201-206 | as written, the resize truncates the file to the doubled limit: with limit 1, a 5-byte record at 0 then a 1-byte write leave the first record unreadable |
| BucketFile.Bucket.OpenBucket | db/buckets/bucket.go:52-73 | the opened bucket has id 1, the configured limits converted to their Go widths, zero key and resize counts, and its offset restored to the total the scan of its contents reports |
| BucketFile.Bucket.Zero | db/buckets/bucket_test.go:131-135 | a bucket literal with only its id set: all counters and limits zero |
| BucketFile.Bucket.Write | db/buckets/bucket.go:149-199 | the counters change as `AfterWrite` says and the results are `WriteResult`; the file becomes `FileAfterWriteAsWritten` (truncated to the doubled limit on a resize, then the data placed at the old offset); the mutex is left held exactly when the resize fails; id, name, folder and per-folder count stay |
| BucketFile.Bucket.Resize | db/buckets/bucket.go:201-206 | the `uint64` size limit doubles (wrapping), the resize count goes up by one (wrapping at 2^32), and the file is truncated to the new limit; the call fails, leaving the file, exactly when the new limit is negative as an `int64` |
| BucketFile.Bucket.WriteData | db/buckets/bucket.go:219-228 | `write` places the data at the given offset of the file, returns that offset and `len(data)`, and changes no counter |
| BucketFile.Bucket.Read | db/buckets/bucket.go:231-240 | succeeds exactly when the offset is non-negative and the range lies in the file (or is empty), and then returns the bytes of `[offset, offset+size)`; a negative offset is an error |
| BucketFile.Bucket.NextBucket | db/buckets/bucket.go:115-141 | when the folder `ceil(id/bucketsPerDir)` of the next id cannot be made nothing changes; otherwise the id goes up by one (as a `uint32`), offset, key count and resize count are reset, limits kept, and the bucket takes the file `filepath.Join(Dir, folder, id.bucket)`, the cleaned path, or, when it cannot be opened, reports the error with no file; a negative per-folder count gives the ceiling of a negative quotient |
| BucketFile.WriteThenRead | db/bucket_test.go:36-51 | "value1" written to a freshly opened bucket reads back from position 0 |
| BucketFile.NextBucketScenario | db/buckets/bucket_test.go:114-161 | from bucket 2 with two buckets per folder under `./db/collections/test/`, the next two buckets are 3 and 4, named `db/collections/test/2/3.bucket` and `db/collections/test/2/4.bucket` |
| BucketFile.TestBucketNames | db/buckets/bucket_test.go:140-157 | under `./db/collections/test/` bucket 3 and bucket 4 of folder 2 are the files `db/collections/test/2/3.bucket` and `db/collections/test/2/4.bucket`: the leading `./` and the trailing slash are cleaned away |
| BucketFile.BucketFileNameOfDir | db/buckets/bucket.go:128 | under any directory that does not clean to `.` or `/`, the joined bucket file is the cleaned directory, the folder and `id.bucket`, separated by slashes; under an already clean directory it is the `%d`-built `BucketPath` |
| BucketFile.TextPlain | db/buckets/bucket.go:128 | a printed folder number and a printed `id.bucket` are single path elements, never empty, `.` or `..`, so the join keeps them as they are |
| BucketFile.FailedResizeHoldsLock | db/buckets/bucket.go:166-176 | with `MaxSize` -1 the first write's resize doubles the limit to a negative `int64`, `Truncate` fails, and the write returns that error with the mutex still held |
| BucketSet.Item.constructor | db/buckets/buckets.go:26-31 | `Item(b)` holds `b` with reference count 1 |
| BucketSet.Buckets.Counts | db/buckets/buckets.go:21-43 | the reference count of every open id; defined exactly on the ids in `items` |
| BucketSet.Buckets.Init | db/buckets/buckets.go:52-62 | the new registry holds the given bucket as `last` and under its id, with count 1, and the configured root and limits |
| BucketSet.Buckets.Last | db/buckets/buckets.go:67-72 | returns the last bucket and adds one to its count; no other count, item or field changes |
| BucketSet.Buckets.Next | db/buckets/buckets.go:75-99 | when the last id is past `prev`, returns the last bucket and changes nothing; otherwise installs a fresh bucket `last.ID+1` with zeroed counters as `last` and in `items` with count 1, so the last id goes up by one, wrapping to 0 after 2^32-1 |
| BucketSet.Buckets.Open | db/buckets/buckets.go:146-160 | a fresh bucket with the given id, zero offset, key count and resize count |
| BucketSet.Buckets.Add | db/buckets/buckets.go:162-178 | an id already held has its count raised by one and nothing replaced; a new id gets a fresh zeroed bucket with count 1; `last` is untouched |
| BucketSet.Buckets.Get | db/buckets/buckets.go:180-195 | returns the bucket with that id; an open one has its count raised by one, a new one is added with count 1 |
| BucketSet.Buckets.Put | db/buckets/buckets.go:197-206 | lowers the count of the bucket's id by one and changes no other count |
| BucketSet.Open | db/buckets/buckets.go:45-65 | a fresh registry whose last bucket has id 1 and is its only item, with count 1 |
| BucketSet.PathsDistinct | db/buckets/buckets.go:140-144 | different ids get different paths |
| BucketSet.LastThenPut | db/buckets/buckets.go:67-72 | `Last` then `Put` leaves every count, item and the last bucket as they were |
| BucketSet.GetThenPut | db/buckets/buckets.go:180-206 | `Get(id)` then `Put` restores a count that existed and leaves a newly opened id at 0, touching no other count |
| BucketSet.HoldThenRelease | db/buckets/buckets.go:163-206 | on count maps: raising one id's count (or adding it at 1) and then lowering it restores the old count, or leaves 0 for a new id |
| BucketSet.LastPutBalanced | db/buckets/buckets_test.go:20-31 | any number of `Last`/`Put` rounds on a fresh registry leave bucket 1 with count 1 |
| BucketSet.GetPutBalanced | db/buckets/buckets_test.go:33-57 | five or more rounds of `Get`/`Put` over ids 1 to 5 in turn leave bucket 1 at 1 and buckets 2 to 5 at 0 |
| BucketSet.GetPutRounds | db/buckets/buckets_test.go:45-50 | after `rounds` rounds of `Get`/`Put` over ids 1 to 5 in turn, the counts are balanced: 1 for bucket 1, 0 for every other opened id |
| BucketSet.BalancedAfterFive | db/buckets/buckets_test.go:52-56 | balanced counts after five or more rounds are exactly `{1:1, 2:0, 3:0, 4:0, 5:0}` |
| BucketSet.BalancedStep | db/buckets/buckets.go:180-206 | one more `Get`/`Put` round keeps the counts balanced |
| IndexKey.Hash | db/index/key.go:27-30 | bytes 0 to 8 read big-endian: a `uint64` |
| IndexKey.Position | db/index/key.go:53-56 | bytes 8 to 12 read big-endian: a `uint32` |
| IndexKey.Offset | db/index/key.go:48-51 | bytes 12 to 20 read big-endian and reinterpreted as an `int64` |
| IndexKey.Empty | db/index/key.go:18-20 | a slot is empty when all 20 bytes are zero; `EmptyFields` and `HashedIsNotEmpty` state what that means for its fields |
| IndexKey.HasCollision | db/index/key.go:34-36 | bytes 8-12 are not all zero; `HasCollisionIffPosition` states that this is a non-zero position |
| IndexKey.Equal | db/index/key.go:59-61 | the stored hash equals the given hash; `IndexFile.File.WalkFindsChain` and `Find` state the lookup built on it |
| IndexKey.HasCollisionIffPosition | db/index/key.go:32-56 | a slot has a collision exactly when its position is not 0 |
| IndexKey.EmptyFields | db/index/key.go:18-20 | an all-zero slot has hash, position and offset 0 and no collision |
| IndexKey.HashedIsNotEmpty | db/index/key.go:18-30 | a slot whose hash is not 0 is not empty |
| IndexKey.Put | db/index/key.go:24-45 | `PutUintN` into the slot array: the bytes land at their position and every other byte is kept |
| IndexKey.SetHash | db/index/key.go:22-25 | afterwards `Hash()` returns the value set, and bytes 8 to 20 are unchanged |
| IndexKey.SetPosition | db/index/key.go:38-41 | afterwards `Position()` returns the value set, and bytes 0 to 8 and 12 to 20 are unchanged |
| IndexKey.SetOffset | db/index/key.go:43-51 | afterwards `Offset()` returns the value set as an `int64`, and bytes 0 to 12 are unchanged |
| IndexKey.FillSlot | db/index/key.go:22-56 | a zero slot after all three setters reads back each value, and has a collision exactly when the position set is not 0 |
| IndexFile.FnvStep | db/index/index.go:200-205 | one FNV-1a step (xor the byte in, multiply by the prime 1099511628211, modulo 2^64) stays a `uint64` |
| IndexFile.FnvFrom | db/index/index.go:200-205 | FNV-1a over a byte string from a given state stays a `uint64` |
| IndexFile.Fnv1a64 | db/index/index.go:200-205 | `Hash`: FNV-1a 64 over the key from the offset basis 14695981039346656037, a `uint64` |
| IndexFile.FnvFromAppend | db/index/index.go:200-205 | hashing two strings one after the other is hashing the first, then continuing with the second, as `h.Write` allows |
| IndexFile.HashVectors | db/index/index.go:200-205 | the published FNV-1a 64 values for "", "a" and "foobar" |
| IndexFile.File.constructor | db/index/index.go:34-48 | a file over the given bytes, slots and capacity, with both counters at zero |
| IndexFile.File.Next | db/index/index.go:107-125 | following a slot's position leads to a slot in the collision table that is lower in the chain order |
| IndexFile.File.Chain | db/index/index.go:105-112 | the chain from a slot starts at that slot and stays within the tables |
| IndexFile.File.Walk | db/index/index.go:124-126 | the walk `Find` makes along a chain ends on a slot within the tables |
| IndexFile.File.EndHasNoCollision | db/index/index.go:105-112 | the end of every chain is a slot with no collision |
| IndexFile.File.WalkFindsChain | db/index/index.go:124-128 | the walk stops on a slot of the chain; it holds the hash exactly when some slot of the chain does, and otherwise it is the end of the chain |
| IndexFile.File.Find | db/index/index.go:114-129 | returns the primary slot `hash mod capacity` when it is empty or holds the hash; otherwise follows the chain, ending on a slot that holds the hash or has no collision; nothing is modified |
| IndexFile.File.Last | db/index/index.go:102-112 | returns the end of the slot's chain, which has no collision |
| IndexFile.File.NextCollision | db/index/index.go:149-153 | adds one to the `uint32` counter (wrapping) and returns the new value; nothing else changes |
| IndexFile.File.CollisionOff | db/index/index.go:160-163 | adds 24 to the `uint64` offset counter (wrapping) and returns the new value; nothing else changes |
| IndexFile.File.SlotOffset | db/index/index.go:155-158 | `(hash mod capacity) * 24` as a `uint64`; without wrap-around, a multiple of 24 below `capacity * 24` naming the primary slot |
| IndexFile.File.Get | db/index/index.go:165-187 | "Key not found" exactly when `Find` lands on an empty slot; "Cannot read" exactly when the slot's offset is the end of the data; otherwise up to the size of an `Index` of data from the slot's offset |
| IndexFile.File.Del | db/index/index.go:189-198 | writes the single byte 1 at `offset(Hash(key)) + 29` of the file and changes nothing else, whatever the chains hold; a position negative as `int64` is an error |
| IndexFile.SlotInTable | db/index/index.go:155-158 | a slot number below the capacity gives an offset that is a multiple of 24 inside the table |
| IndexFile.DelMarksOwnSlot | db/index/index.go:189-198 | while the table fits in half the `uint64` range, the position `Del` writes to is the deleted flag of the key's own primary record (never wrapped or negative); the write sets it to 1 and leaves the flag of every other slot |
| IndexFile.CollisionIds | db/index/index.go:149-153 | from a fresh file, `n` calls to `NextCollision` return 1, 2, ..., n |
| IndexFile.CollisionOffsets | db/index/index.go:160-163 | from a fresh file, `n` calls to `collisionOff` return 24, 48, ..., 24n |
| DirLayout.File.constructor | db/dir.go:48-49 | an opened file carries its path and the zero id until `Get` sets it |
| DirLayout.Subdir | db/dir.go:42 | `(perDir + id - 1) / perDir` with Go's truncating division; `SubdirIsCeil` states that it is `ceil(id/perDir)` for positive ids |
| DirLayout.FilePath | db/dir.go:46 | `root/<subdir>/<id>.<ext>` built with `%d`; `FilePathsDistinct` and `ThreePerDir` state that different ids get different paths and where they go |
| DirLayout.MaxId | db/dir.go:63-99 | the greatest numbered sub-directory, then the greatest file id in it up to the first name that does not parse; `MaxNameIsGreatest`, `StemScanIsGreatest`, `StemScanStops` and `MaxIdOfEmptyRoot` state each part |
| DirLayout.SubdirIsCeil | db/dir.go:41-42 | the sub-directory of file `id` is `ceil(id / perDir)`, the least number of full directories that reach `id` |
| DirLayout.FilePathsDistinct | db/dir.go:44-46 | two different ids never share a path `root/subdir/id.ext` |
| DirLayout.ThreePerDir | db/directory_test.go:10-25 | with three files per directory, ids 1-3 go to sub-directory 1 and 4-6 to sub-directory 2; file 4 is `./test/2/4.idx` |
| DirLayout.MaxName | db/dir.go:64-74 | the largest sub-directory number, never negative |
| DirLayout.Stem | db/dir.go:87-88 | the part of a file name before its first dot: a prefix with no dot, followed by a dot whenever it is shorter than the name |
| DirLayout.MaxNameIsGreatest | db/dir.go:64-74 | every sub-directory name reads as at most the maximum, and a positive maximum is the number of one of them; names that do not parse count as zero |
| DirLayout.StemScanIsGreatest | db/dir.go:85-96 | the scan of the last sub-directory is at least where it started and at least every file id read before the first name that does not parse |
| DirLayout.StemScanStep | db/dir.go:88-95 | a name that parses raises the running maximum to its id when larger and the scan carries on |
| DirLayout.StemScanStops | db/dir.go:88-91 | a name that does not parse ends the scan with the maximum so far: later names are never read |
| DirLayout.MaxIdOfEmptyRoot | db/dir.go:76-79 | with no sub-directory numbered above zero, `Max` is 0 |
| DirLayout.MaxNameOfFive | db/directory_test.go:27-36 | sub-directories 1 to 5 give 5 as the last one |
| DirLayout.ScanThirteen | db/directory_test.go:27-36 | a last sub-directory holding `13.idx` gives 13 |
| DirLayout.MaxAfterThirteen | db/directory_test.go:27-36 | after files 1 to 13 with three per directory, `Max` is 13 |
| DirLayout.Directory.constructor | db/dir.go:21-22 | a directory with the given root, files per directory and extension, and no last file yet |
| DirLayout.Directory.Get | db/dir.go:39-60 | a failed open returns the error and leaves `Last`; otherwise a new file with the given id at `root/ceil(id/perDir)/id.ext`, which replaces `Last` exactly when there is none or its id is lower |
| DirLayout.Directory.Max | db/dir.go:62-99 | the loop over the listings computes the largest id of the last sub-directory as `MaxId` defines it |
| DirLayout.GetKeepsNewest | db/dir.go:54-56 | `Get` never lowers the id of the last file, whichever id it is asked for |
| DirLayout.Dir | db/dir.go:21-37 | `nil` exactly when the file cannot be opened; otherwise a directory whose last file is the id `MaxId` reports, or 1 when that is 0, at its computed path. `MaxId` scans only the last sub-directory and stops at the first name that does not parse |
| DataBlock.Block.constructor | block/block.go:3-16 | a zeroed block: no keys, no data, a data area of 4096 - 8 bytes |
| DataBlock.Block.Write | block/block.go:18-30 | a full block takes nothing; otherwise as many bytes as fit are copied at the end of the data, the size grows by that count and the rest of the area is unchanged |
| DataBlock.Block.Read | block/block.go:32-41 | an offset past the data area copies nothing; otherwise as many bytes as both the destination and the area from the offset hold are copied to the front of the destination |
| DataBlock.WriteThenRead | block/block_test.go:8-17 | bytes written into a block with room for them are read back unchanged from where they were written |
| DataBlock.WriteReadFoo | block/block_test.go:8-17 | writing "foo" into a new block and reading three bytes from offset 0 gives "foo" |
| IndexBlock.Block.constructor | index/block.go:3-18 | a zeroed block whose data area is 4096 less the 4-byte header |
| IndexBlock.Block.Write | index/block.go:20-31 | data that does not fit whole is refused and nothing changes; otherwise all of it is copied at the offset, which advances by its length |
| IndexBlock.WriteTwice | index/block.go:20-31 | two writes that fit leave both byte strings side by side, in order, from the first offset |
| IndexBlock.OverflowRefused | index/block.go:22-25 | a block one byte short of full refuses a two-byte write and keeps its offset |
| MmapFile.Mmap.constructor | db/mmap/mmap.go:42-48 | a mapping over the given bytes and block size, reading from offset 0 |
| MmapFile.Mmap.Write | db/mmap/mmap.go:56-67 | a block number at or past the end copies nothing; otherwise as much of the source as fits is copied from `number * blockSize` on and the rest of the mapping is unchanged |
| MmapFile.Mmap.Read | db/mmap/mmap.go:84-94 | a block number at or past the end copies nothing; otherwise as many bytes as fit are copied from `number * blockSize` to the front of the destination, and the mapping is unchanged |
| MmapFile.Mmap.ReadTo | db/mmap/mmap.go:69-82 | `io.EOF`, with nothing copied or moved, when the destination reaches past the end; otherwise the next bytes fill it whole and the read offset advances by its length, so `ErrRead` is never returned |
| MmapFile.Mmap.ReadN | db/mmap/mmap.go:96-101 | a new buffer of `n` blocks, filled from the read offset when that many bytes remain and left zero otherwise; the error is always nil and the offset argument is ignored |
| MmapFile.WriteThenRead | db/mmap/mmap.go:56-94 | bytes written at a block that holds them are read back unchanged from that block |
| MmapFile.ReadToTwice | db/mmap/mmap.go:69-82 | two reads in a row return consecutive bytes of the mapping and advance the offset by both lengths |
| LibBitbox.Buffer.constructor | lib/bitbox/buffer.go:9-12 | a buffer over the given bytes with the offset at 0 |
| LibBitbox.Buffer.Len | lib/bitbox/buffer.go:19-22 | the number of unread bytes |
| LibBitbox.Buffer.Data | lib/bitbox/buffer.go:41-44 | the unread bytes: what follows the offset, so that read and unread bytes make up the data |
| LibBitbox.Buffer.Copy | lib/bitbox/buffer.go:24-30 | copies as many unread bytes as the destination holds to its front, leaves the rest of it, and moves the offset past them |
| LibBitbox.Buffer.Take | lib/bitbox/buffer.go:32-39 | for bytes within the buffer's length, returns the next `num` bytes and moves the offset past them, so the returned bytes followed by the unread rest are the old unread bytes |
| LibBitbox.Buffer.Consume | lib/bitbox/buffer.go:46-49 | moves the offset forward by `n` and does nothing else |
| LibBitbox.Buffer.Decode | lib/bitbox/buffer.go:14-17 | passes none of its objects on, so every destination keeps its value and the offset does not move |
| LibBitbox.EncodeOne | lib/bitbox/bitbox.go:12-32 | one argument's bytes: nothing for a nil pointer, a `uint32` length and the bytes for a `[]byte`, the native bytes of an integer or bool; `BytesLayout`, `NilAddsNothing` and `DecodeOneOfEncodeOne` state its layout and that it reads back |
| LibBitbox.Encode | lib/bitbox/bitbox.go:9-35 | the arguments' bytes one after the other; `EncodeAppend` and `DecodeAllOfEncode` state that it composes and reads back |
| LibBitbox.FromRawBytes | lib/bitbox/bitbox.go:99-104 | reading a destination's in-memory bytes back keeps its kind: an integer of the same kind and in range, or a bool |
| LibBitbox.EncodeAppend | lib/bitbox/bitbox.go:8-35 | the encoding of two argument lists one after the other is the two encodings concatenated |
| LibBitbox.NilAddsNothing | lib/bitbox/bitbox.go:14-17 | a nil pointer anywhere among the arguments leaves the encoding unchanged |
| LibBitbox.BytesLayout | lib/bitbox/bitbox.go:19-26 | a byte slice encodes as its length in four little-endian bytes followed by its bytes |
| LibBitbox.DecodeOne | lib/bitbox/bitbox.go:40-73 | one destination consumes at most the unread bytes and keeps its kind and range |
| LibBitbox.DecodeAll | lib/bitbox/bitbox.go:37-97 | every destination is decoded, in order, consuming at most the bytes there are |
| LibBitbox.Decode | lib/bitbox/bitbox.go:36-97 | the loop decodes each destination as `DecodeAll` states, over the unread bytes, and moves the offset past exactly the bytes consumed; with no destinations nothing happens |
| LibBitbox.DecodedOneMore | lib/bitbox/bitbox.go:38-96 | decoding one more destination keeps what remains to decode in step with the whole of `DecodeAll` |
| LibBitbox.DecodeItem | lib/bitbox/bitbox.go:39-96 | one pass of the loop: the destination and the bytes it consumes are as `DecodeOne` states over the unread bytes |
| LibBitbox.DecodeAllCons | lib/bitbox/bitbox.go:37-97 | decoding a list is decoding its first destination, then the rest from where the first stopped |
| LibBitbox.Shapes | lib/bitbox/bitbox.go:37-97 | one zeroed destination of the matching kind per integer or bool argument |
| LibBitbox.Expecteds | lib/bitbox/bitbox.go:37-97 | one destination per argument, holding the argument's value |
| LibBitbox.DecodeOneOfEncodeOne | lib/bitbox/bitbox.go:8-97 | one integer or bool decodes from its own encoding, whatever follows, into its own value, consuming exactly its width |
| LibBitbox.DecodeAllOfEncode | lib/bitbox/bitbox.go:8-97 | a list of integers and bools decodes from its encoding, whatever follows, into the same values, consuming exactly the encoding |
| LibBitbox.EncodedInFront | lib/bitbox/bitbox.go:8-35 | a list's encoding is its first argument's encoding followed by the rest's |
| LibBitbox.ConsStep | lib/bitbox/bitbox.go:37-97 | putting one more integer or bool in front of an encoding and a destination in front of the list decodes it and then the rest as before |
| LibBitbox.DecodedInFront | lib/bitbox/bitbox.go:37-97 | a destination that reads exactly the bytes in front of a list that decodes reads them first, then the list as before |
| LibBitbox.RoundTrip | lib/bitbox/bitbox.go:8-97 | `Encode` into a new buffer, then `Decode` into zeroed destinations of the same kinds, gives back every value and consumes the whole encoding |
| LibBitbox.ByteSliceDecodesNothing | lib/bitbox/buffer.go:14-17 | as written: `[7]` encodes as `1 0 0 0 7`, and decoding that into an empty `*[]byte` leaves it empty and consumes nothing |
| LibBitbox.DecodeBytesIntended | lib/bitbox/bitbox.go:42-46 | intended: a `*[]byte` keeps its old bytes and gets the announced number appended; missing bytes are an error |
| LibBitbox.DecodeBytesIntendedOfEncode | lib/bitbox/bitbox.go:19-46 | intended: a byte slice decodes from its encoding, whatever follows, appended to the destination's bytes, consuming exactly four plus its length |
| LibBitbox.BytesPrefix | lib/bitbox/bitbox.go:19-26 | a byte slice's encoding is the encoding of its length as a `uint32`, then its bytes |
| DbBitbox.LengthHeader | db/bitbox.go:195-205 | a length is always eight bytes, a big-endian `int64` |
| DbBitbox.EncodeSlice | db/bitbox.go:193-217 | a slice's `int64` length then its elements, an array's elements alone, eight zero bytes when empty; `SliceLayout`, `ArrayLayout` and `EmptyCollections` state each case |
| DbBitbox.EncodeElem | db/bitbox.go:117-191 | one argument's bytes per `encode`'s switch; `ScalarLayout`, `EncoderStructBytes` and `SilentAddsNothing` state the cases that are not collections |
| DbBitbox.Encode | db/bitbox.go:28-62 | the arguments' bytes one after the other, with a nil error; `EncodeAppend` and `DecodeAllOfEncode` state that it composes and reads back |
| DbBitbox.Elements | db/bitbox.go:207-216 | integers of one kind take their width each |
| DbBitbox.EncodeAppend | db/bitbox.go:28-62 | the encoding of two argument lists one after the other is the two encodings concatenated |
| DbBitbox.SilentAddsNothing | db/bitbox.go:34-40 | a struct pointer without `Encode()`, or a value of a kind `encode` has no case for, anywhere among the arguments, leaves the encoding unchanged |
| DbBitbox.SmallBigEndian | db/bitbox.go:219-221 | a value below 256 in big-endian is zero bytes followed by the value |
| DbBitbox.ByteElements | db/bitbox.go:124-125 | the elements of a byte slice are its own bytes |
| DbBitbox.SliceLayout | db/bitbox.go:193-217 | a slice encodes as its length in eight big-endian bytes, then its elements in big-endian |
| DbBitbox.ArrayLayout | db/bitbox.go:200-205 | a non-empty array encodes as its elements alone |
| DbBitbox.EmptyCollections | db/bitbox.go:194-197 | an empty slice and an empty array both encode as eight zero bytes |
| DbBitbox.ScalarLayout | db/bitbox.go:168-190 | an integer encodes as its width of bytes that read back as the integer |
| DbBitbox.EncoderStructBytes | db/bitbox_test.go:126-136 | a struct whose `Encode()` returns `6 6 6` encodes as the length 3 in eight bytes, then `6 6 6` |
| DbBitbox.SmallLengthHeader | db/bitbox.go:204 | a length below 256 is seven zero bytes, then the length |
| DbBitbox.ReadBytes | db/bitbox.go:429-431 | the `io.ReadFull` under `binary.Read`: exactly `n` bytes when they are there, with that many consumed, and never more consumed than remain |
| DbBitbox.ByteBuffer.constructor | db/bitbox.go:263 | a buffer over the encoded bytes with nothing read |
| DbBitbox.ByteBuffer.Bytes | db/bitbox.go:309 | the unread bytes, which follow what was read |
| DbBitbox.ByteBuffer.ReadFull | db/bitbox.go:429-431 | reads and consumes as `ReadBytes` states over the unread bytes |
| DbBitbox.FromElements | db/bitbox.go:419-431 | `count` big-endian values of a kind, each in its range |
| DbBitbox.ReadValues | db/bitbox.go:429-431 | reading `count` values yields `count` values, in range when the old ones were, consuming at most what remains; a short read keeps the old values |
| DbBitbox.SliceSize | db/bitbox.go:414-416 | the length prefix `decodeSlice` reads never consumes more than remains |
| DbBitbox.DecodeOne | db/bitbox.go:263-335 | one destination consumes at most the unread bytes; only a negative slice length fails |
| DbBitbox.DecodeAll | db/bitbox.go:263-335 | every destination is decoded, in order, consuming at most the bytes there are |
| DbBitbox.DecodeAllCons | db/bitbox.go:264-332 | decoding a list is decoding its first destination, then the rest from where the first stopped |
| DbBitbox.DecodeAllHead | db/bitbox.go:264-332 | a list decodes only if its first destination does |
| DbBitbox.DecodeAllStep | db/bitbox.go:264-332 | the result of a list is the first destination's followed by the rest's, from the bytes the first left |
| DbBitbox.Read | db/bitbox.go:429-431 | `binary.Read` into `count` values: the values and the bytes consumed are as `ReadValues` states over the unread bytes |
| DbBitbox.DecodeSlice | db/bitbox.go:413-427 | reads the length, then that many values, as `DecodeOne` states for a slice destination |
| DbBitbox.DecodeItem | db/bitbox.go:264-331 | one pass of the loop: the destination and the bytes it consumes are as `DecodeOne` states |
| DbBitbox.Decode | db/bitbox.go:263-335 | the loop decodes every destination as `DecodeAll` states over the unread bytes and consumes exactly the bytes it counts |
| DbBitbox.RemainingStep | db/bitbox.go:264-332 | decoding one more destination keeps what remains to decode in step with the whole of `DecodeAll` |
| DbBitbox.FromElementsOfElements | db/bitbox.go:207-216 | integers written as big-endian elements read back as the same integers |
| DbBitbox.ElementInFront | db/bitbox.go:207-216 | the first element read from an encoding gives back the first integer and leaves the rest |
| DbBitbox.ReadValuesOfElements | db/bitbox.go:429-431 | reading as many values as were written, whatever follows, gives back the values and consumes exactly their bytes |
| DbBitbox.LengthHeaderElements | db/bitbox.go:413-416 | a length header is the encoding of one `int64` |
| DbBitbox.Shape | db/bitbox_test.go:38-97 | the zeroed destination a caller passes for an argument is in range |
| DbBitbox.Shapes | db/bitbox_test.go:38-97 | one destination per argument |
| DbBitbox.Expecteds | db/bitbox_test.go:38-97 | one expected value per argument |
| DbBitbox.DecodeScalarOfEncode | db/bitbox_test.go:38-62 | an integer of any kind decodes from its encoding, whatever follows, into a zeroed integer of that kind, consuming its width |
| DbBitbox.DecodeArrayOfEncode | db/bitbox_test.go:108-113 | an array's elements decode, whatever follows, into a zeroed array of the same length |
| DbBitbox.DecodeSliceOfEncode | db/bitbox_test.go:64-96 | a slice's encoding, whatever follows, decodes into an empty slice of its kind as the same values, consuming the header and the elements |
| DbBitbox.SliceSizeOfHeader | db/bitbox.go:414-416 | a length header reads back as the length, consuming eight bytes |
| DbBitbox.DecodeSliceBody | db/bitbox.go:413-427 | once the length is read, the elements that follow it fill the new slice |
| DbBitbox.DecodeOneOfEncodeElem | db/bitbox.go:263-335 | any integer, slice or array decodes from its intended encoding, whatever follows, into its zeroed destination, consuming exactly that encoding |
| DbBitbox.EncodeOnto | db/bitbox.go:28-62 | encoding in front of other bytes keeps those bytes |
| DbBitbox.EncodeOntoIsAppend | db/bitbox.go:28-62 | encoding in front of other bytes is the intended encoding followed by them |
| DbBitbox.DecodeAllOfEncodeOnto | db/bitbox.go:263-335 | integers, slices and arrays decode from their intended encoding in front of any bytes into their values, consuming exactly the encoding |
| DbBitbox.OntoCons | db/bitbox.go:28-62 | encoding a list in front of other bytes is its first argument's intended encoding in front of the rest's |
| DbBitbox.ConsStep | db/bitbox.go:263-335 | one more argument in front of an encoding that reads back also reads back |
| DbBitbox.DecodeAllOfEncodeIntended | db/bitbox.go:263-335 | intended: every integer, slice and array, empty arrays included, reads back from the encoding, whatever follows it, and exactly the encoding is consumed |
| DbBitbox.DecodeAllAppend | db/bitbox.go:263-335 | a destination that reads exactly a prefix, in front of a list that reads back, reads back with it |
| DbBitbox.EncodeIsIntended | db/bitbox.go:193-217 | without empty arrays the encoding as written is the intended one |
| DbBitbox.DecodeAllOfEncode | db/bitbox_test.go:38-113 | as written: integers, slices and non-empty arrays read back from their encoding, whatever follows it, and exactly the encoding is consumed |
| DbBitbox.EmptyArrayMisaligns | db/bitbox.go:195-205 | as written: an empty `int8` array then an `int8` 5 encode as eight zeros and 5, and decode into an empty array and 0, the 5 left unread |
| DbBitbox.EmptyArrayThenFive | db/bitbox.go:195-197 | an empty array then an `int8` 5 encode as eight zeros and then 5 |
| DbBitbox.ZeroByteReadsZero | db/bitbox.go:429-431 | an `int8` read from a zero byte is 0 and takes that byte |
| DbBitbox.DecoderConsumesNothing | db/bitbox.go:306-311 | a struct with `Decode([]byte)` is handed every unread byte and consumes none, so the next destination reads the same bytes |
| DbBitbox.RoundTrip | db/bitbox_test.go:20-113 | `Encode` then `Decode` into zeroed destinations of the same shapes gives back every argument and leaves no byte unread |
| DbBitbox.StructRoundTrip | db/bitbox_test.go:122-136 | the `Encoder` struct's `6 6 6` handed to a `Decoder` struct gives it `0 0 0 0 0 0 0 3 6 6 6` |
| DbBitbox.Decode2 | db/bitbox.go:227-239 | every byte slice gets the chunk of `buf` at the running offset, as much as fits, over its front; other arguments are skipped and nothing else changes |
| DbBitbox.SplitPair | db/bitbox.go:227-239 | two byte slices of the right lengths over a concatenation, with something else between them, get back the two parts |
| OsFile.Extend | db/buckets/bucket.go:201-206 | growing a file keeps its bytes and fills the new ones with zeros |
| OsFile.WriteAt | db/buckets/bucket.go:219-228 | `WriteAt` puts the data at the offset, growing the file with zeros when needed, and leaves every other byte |
| OsFile.Truncate | db/buckets/bucket.go:201-206 | `Truncate` to `n` bytes keeps the first `n` and pads with zeros |
| OsFile.ReadAt | db/buckets/bucket.go:230-240 | `ReadAt` fails on a negative offset and when the bytes are not all there; otherwise it gives exactly `size` bytes from the offset |
| OsFile.ReadAtAfterWriteAt | db/buckets/bucket.go:219-240 | what was written at an offset reads back from it |
| OsFile.ReadAtAcrossWriteAt | db/buckets/bucket.go:219-240 | a write leaves every range it does not overlap reading as before |
| GoCopy.Min | block/block.go:26 | the smaller of two numbers, the count Go's `copy` returns |
| GoCopy.Copied | db/index/index.go:177 | `copy` into a slice keeps its length |
| GoCopy.CopiedSplits | db/index/index.go:177 | `copy` overwrites the front of the destination with as many source bytes as fit and keeps the rest |
| GoCopy.CopyInto | block/block.go:26 | `copy` into an array from a position overwrites only the bytes that fit and returns their count |
| Decimal.Itoa | db/dir.go:46 | `%d` of a natural number is a non-empty string of digits without a leading zero |
| Decimal.Text | db/buckets/bucket.go:122 | `%d` of any integer, a minus sign before the digits when negative; `TextChars` and `AtoiOfText` state its characters and that `Atoi` reads it back |
| Decimal.Atoi | db/dir.go:70 | `strconv.Atoi` succeeds exactly on an optional sign followed by at least one digit |
| Decimal.DigitsValueOfItoa | db/dir.go:46 | the digits `%d` writes stand for the number |
| Decimal.AtoiOfItoa | db/dir.go:46-70 | `Atoi` reads back what `%d` writes for a natural number |
| Decimal.TextChars | db/dir.go:46 | `%d` writes only digits and a minus sign, never a `/` |
| Decimal.AtoiOfText | db/dir.go:82-88 | `Atoi` reads back what `%d` writes, for any integer |
| Decimal.AtoiOfNegativeText | db/dir.go:82-88 | `Atoi` reads back a negative number `%d` writes |
| Decimal.SignedDigits | db/dir.go:70 | a minus sign before digits reads as the negated value |
| Paths.SplitPath | db/buckets/buckets.go:141-144 | two paths `root/a/b` built with the same root and suffix, whose `a` parts have no slash, are equal only when their parts are |
| Paths.NumberedPathInjective | db/buckets/buckets.go:141-144 | two bucket paths are equal only when their folder and id are |
| Paths.SplitOfJoinSlash | db/buckets/bucket.go:128 | splitting slash-free elements joined with slashes gives the elements back |
| Paths.JoinSlashOfSplit | db/buckets/bucket.go:128 | joining the pieces of a path with slashes gives the path back |
| Paths.SplitAppend | db/buckets/bucket.go:128 | the pieces of `x/y` are the pieces of `x` followed by those of `y` |
| Paths.ResolveAppend | db/buckets/bucket.go:128 | resolving elements in two parts is resolving the second part onto the result of the first |
| Paths.ResolveIsResolved | db/buckets/bucket.go:128 | resolution leaves no empty, `.` or slashed element, and `..` only at the front of a relative path |
| Paths.ResolveOfResolved | db/buckets/bucket.go:128 | elements already in resolved form are kept as they are |
| Paths.JoinOfResolved | db/buckets/bucket.go:128 | resolved elements join into a non-empty, unrooted path that splits back into them |
| Paths.CleanIdempotent | db/buckets/bucket.go:128 | cleaning a cleaned path changes nothing |
| Paths.DirPieces | db/buckets/bucket.go:128 | a path that does not clean to `.` or `/` cleans to its resolved pieces, non-empty, joined with slashes after a leading slash when rooted |
| Paths.JoinCleansDir | db/buckets/bucket.go:128 | joining a directory that does not clean to `.` or `/` with two ordinary names gives the cleaned directory, a slash, the first name, a slash and the second |
| Paths.CleanDotDir | db/buckets/bucket_test.go:117 | `./a/b/c/` with ordinary names cleans to `a/b/c` |
| Paths.Clean | db/buckets/bucket.go:128 | `filepath.Clean`: the resolved pieces, with a leading slash when rooted, or `.` when nothing is left; `CleanIdempotent`, `DirPieces` and `CleanDotDir` state its properties |
| Paths.Join | db/buckets/bucket.go:128 | `filepath.Join`: leading empty elements are skipped, and the rest is joined with slashes and cleaned; `JoinCleansDir` states the result for a directory and two names |
| GoInts.BigEndian | db/index/key.go:24 | `binary.BigEndian.PutUintN` stores exactly `n` bytes |
| GoInts.FromBigEndian | db/index/key.go:29 | `binary.BigEndian.UintN` reads a number below `256^n` from `n` bytes |
| GoInts.FromBigEndianOfBigEndian | db/index/key.go:24-29 | a number stored in big-endian reads back as the same number |
| GoInts.BigEndianOfFromBigEndian | db/index/key.go:24-29 | bytes read as a number and stored again are the same bytes |
| GoInts.FromBigEndianZero | db/index/key.go:29 | bytes read as zero exactly when all of them are zero |
| GoInts.LittleEndian | lib/bitbox/bitbox.go:99-104 | a value's in-memory bytes are exactly its width |
| GoInts.FromLittleEndianOfLittleEndian | lib/bitbox/bitbox.go:99-104 | in-memory bytes read back as the same value |
| GoInts.Raw | db/bitbox.go:219-221 | the two's complement bit pattern of a value lies below the kind's range |
| GoInts.FromRaw | db/bitbox.go:429-431 | any bit pattern reads as a value in the kind's range |
| GoInts.FromRawOfRaw | db/bitbox.go:219-221 | a value's bit pattern reads back as the value |
| GoInts.Int64Of | db/index/key.go:50 | `int64(u)` of a `uint64` is an `int64`, equal to `u` below `2^63` |
| GoInts.CeilDiv | db/buckets/buckets.go:141-144 | the least number of groups of `n` that reach `x` |
| GoInts.CeilQuot | db/buckets/bucket.go:120 | `math.Ceil` of the quotient for a divisor of either sign: the least multiple that reaches `x` for a positive divisor, and for a negative one the truncation toward zero |
| GoInts.Quot | db/dir.go:42 | Go's truncating `/`: the remainder is below the divisor in size and has the dividend's sign |

## Left out

- Concurrency. The atomics and mutexes of the bucket and the registry are treated as plain fields. Every operation is modelled as running alone, and the double-checked locking around `resize` is one check.
- The operating system. Opening and creating files and directories is not modelled. Neither are `os.ReadDir`, the scan for the last bucket (`Last(root)`) or directory creation. Each of these is a parameter:
  - the contents of a file, as a byte sequence;
  - the directory listings, as a map from path to names, in the order `os.ReadDir` returns them;
  - whether an open succeeds, as a boolean.
- The memory mapping calls `Mmap.Open`, `Sync` and `Resize` (db/mmap/mmap.go:21-54,104-132): they are system calls. The mapping is an array of the mapped length.
- `Index.Open`, `Index.Set` and `Index.Get` (db/index/index.go:52-100), because they call file helpers that db/file/file.go does not define. db/index/loader.go and db/index/stats.go are not part of this model.
- IndexFile.File.Get returns the raw bytes from the slot's offset, up to the size of an `Index` struct. It does not model the unsafe cast of those bytes into an `Index` value.
- IndexFile.File.Find and IndexFile.File.Last assume collision chains (`Chained`) in which every position lies inside the collision table and each collision slot points only to a later one, so positions strictly increase along a chain. This is stronger than having no cycle. It is the shape chains take when every new collision slot comes from `NextCollision`, which counts up, and is linked from the end of its chain; the linking code (`Index.Set`) is not part of this model. The Go code loops forever on a cycle and panics on an out-of-range position.
- IndexKey.Equal compares the stored hash with a hash argument. At its call sites the Go code passes a `uint64` to a method declared to take a name, so this is the call-site reading.
- BucketFile.Bucket.Write requires the bucket's mutex to be free. After a failed resize the Go code returns with the mutex still locked (db/buckets/bucket.go:167-174), so any later `Write` blocks forever, even in a program that runs alone. The model records the held mutex in `locked` and does not describe the blocked call, which has no result.
- BucketFile.Bucket.NextBucket treats the nil file left by a failed open as an empty file. In Go, later writes to it and reads from it fail with an invalid-file error, and a resize on it fails.
- BucketKV.KV.FromBytes copies the value. In Go, `Val` shares the input's backing array (db/buckets/kv.go:27), so a later change to the input shows through `Val`; that aliasing is not modelled.
- BucketFile.Bucket.Write does not model the wrap-around of the `int64` offset and counters. They are unbounded integers; the conversions of the configured limits (`uint64`, `int16`) are modelled.
- DirLayout.Directory.Max does not model `strconv.Atoi` failing on numbers out of the 64-bit range.
- The `int32` reference counts of the bucket registry (db/buckets/buckets.go:23) and the `int64` total of the record scan (db/buckets/iterator.go:25) are unbounded integers here. Their wrap-around would need about 2^31 references held at once, or 2^63 bytes scanned, so it is practically unreachable.
- Paths.Clean models `filepath.Clean` for slash-separated paths only. Windows volume names and backslash separators are not modelled.
- LibBitbox.Decode models destinations as values that are returned, not pointers that are written through. Each destination is a distinct variable.
- LibBitbox.Buffer.Take does not model slice capacity. Go allows `b.data[off:b.off]` to reach up to `cap(data)` (lib/bitbox/buffer.go:38), and buffers built with `append` usually have spare capacity. The model requires the bytes to lie within the length. The one call in the package passes 0 (lib/bitbox/bitbox.go:43-45).
- LibBitbox: floats, complex numbers, the reflection path and arrays of bytes are not modelled. The reflection path (lib/bitbox/bitbox.go:88-93) is taken by non-pointer arguments, which panic on values that cannot be addressed. It is also taken by pointers to the platform-sized `int`, `uint` and `uintptr` and by pointers to structs. A little-endian machine is assumed for the native byte order.
- LibBitbox.RoundTrip is stated for integers and bools only, because byte slices do not decode as written (see Findings).
- DbBitbox: floats, `big.Int`, structs encoded field by field, slices of structs and `decodeArrayStruct` are not modelled. Neither are `ToBytes`, `AsBytes`, `PointTo` or the "unsupported type" message. A slice or array whose element kind is not a fixed-width integer (`bool`, `int`, `string`, structs and the rest) takes the default branch of `encode`, which writes an 8-byte `int64` length and then only the elements that implement `Encoder`; such arguments are not modelled. On the decode side, pointers to `bool`, `int` and `string` are not modelled either. `binary.Read` reads one byte into a `*bool`, although `encode` writes nothing for a bool. It refuses `*int` and `*string` without reading, and `Decode` ignores that error. A pointer to a struct that is not an `Encoder`, and a scalar of an unlisted kind, write nothing, as `DbBitbox.SilentAddsNothing` states.
- DbBitbox.DecodeOne fails only on a negative slice length. A slice length too large for `make` to allocate is not modelled.
- DbBitbox.Decode treats a `Decoder` struct as recording the bytes it is given. What the struct does with them is its own code.
- DbBitbox.RoundTrip is stated for integers, integer slices and non-empty integer arrays, because an empty array misaligns what follows it (see Findings).
- DbBitbox.Decode2 requires the byte-slice arguments not to share a backing array, so aliasing between them is not modelled.
- Decimal.TextChars states the character set `%d` writes, not the exact digits, which `Decimal.AtoiOfText` pins down.
- The network server, the client, the unfinished and duplicate packages, and the stubs are not part of this model.

## Findings

| source | as written | input that shows it | evidently intended | confidence | as-written member | corrected member |
|---|---|---|---|---|---|---|
| db/buckets/bucket.go:201-206 | `resize` calls `Truncate` with the doubled limit, even when the file already holds more bytes than that, so it cuts off records written earlier | size limit 1: write 5 bytes at offset 0 (limit becomes 2, file is 5 bytes), then write 1 byte (offset 6 reaches 2, limit becomes 4, file is cut to 4 bytes): the first record's last byte is lost | the resize only grows the file, so every byte before the write offset stays readable | not executed | BucketFile.ResizeTruncatesEarlierRecord | BucketFile.EarlierRangesSurvive |
| lib/bitbox/buffer.go:15-17 | `Buffer.Decode` calls `Decode(b)` without its objects, so the length of a `*[]byte` is never read and `Take(0)` appends nothing | `Encode([]byte{7})` is `1 0 0 0 7`; decoding it into an empty `*[]byte` leaves it empty and consumes nothing | the `uint32` length is read, then that many bytes are appended | not executed | LibBitbox.ByteSliceDecodesNothing | LibBitbox.DecodeBytesIntendedOfEncode |
| db/bitbox.go:195-205 | `encodeSlice` writes a zero length for an empty array, but an array's length is otherwise never written and `Decode` does not read one for an array | an empty `[0]int8` then an `int8` 5 encode as eight zero bytes and 5; decoding gives an empty array and 0, and the 5 is never read | an empty array encodes as nothing, like the elements of a non-empty one | not executed | DbBitbox.EmptyArrayMisaligns | DbBitbox.DecodeAllOfEncodeIntended |

The bucket's methods follow the code as written (`FileAfterWriteAsWritten`, truncating the file on a resize). The corrected update (`FileAfterWrite`, growing the file) sits beside it, and `BucketFile.TruncateAgreesWhenShort` shows that the two differ only when the file is already longer than the doubled limit.
