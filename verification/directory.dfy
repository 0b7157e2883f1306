/**
 * Files spread over numbered sub-directories (db/dir.go): file `id` lives
 * at `root/ceil(id/PerDir)/id.ext`; the newest id is found by listing the
 * root and then its greatest sub-directory.
 */
module DirLayout {
  import opened GoInts
  import opened Wrappers
  import opened Decimal
  import Paths

  /**
   * What `os.ReadDir` lists under each path, in the order it returns the
   * names (sorted by name); a path it cannot read lists nothing, since
   * the callers drop the error.
   */
  type Listing = map<string, seq<string>>

  function ListOf(fs: Listing, path: string): seq<string> {
    if path in fs then fs[path] else []
  }

  datatype OpenError = OpenFailed

  /** An opened file and the id the directory gave it. */
  class File {
    var ID: int
    const Path: string

    constructor (path: string)
      ensures Path == path && ID == 0
    {
      Path := path;
      ID := 0;
    }
  }

  // ---------------------------------------------------------------- layout

  /** The sub-directory of `id`: `(perDir + id - 1) / perDir` with Go's truncating division. */
  function Subdir(perDir: int, id: int): int
    requires perDir != 0
  {
    Quot(perDir + id - 1, perDir)
  }

  /** For positive ids and a positive `perDir`, the sub-directory is `ceil(id / perDir)`. */
  lemma {:induction false} SubdirIsCeil(perDir: int, id: int)
    requires perDir > 0 && id >= 1
    ensures Subdir(perDir, id) == CeilDiv(id, perDir)
  {
    var a := perDir + id - 1;
    var q := Subdir(perDir, id);
    var c := CeilDiv(id, perDir);
    assert q * perDir <= a < q * perDir + perDir;
    assert c * perDir <= a < c * perDir + perDir by {
      assert a == c * perDir + a % perDir;
    }
    assert (q - c) * perDir == q * perDir - c * perDir;
    assert (c - q) * perDir == c * perDir - q * perDir;
    MulAtLeast(q - c, perDir);
    MulAtLeast(c - q, perDir);
  }

  lemma {:induction false} MulAtLeast(k: int, p: int)
    requires p > 0
    ensures k >= 1 ==> k * p >= p
  {
    if k >= 1 {
      assert k * p == (k - 1) * p + p;
      assert (k - 1) * p >= 0;
    }
  }

  /** `root/subdir/id.ext`, as `Get` prints it. */
  function FilePath(root: string, perDir: int, id: int, ext: string): string
    requires perDir != 0
  {
    Paths.NumberedPath(root, Subdir(perDir, id), id, "." + ext)
  }

  /** Two different ids never share a path. */
  lemma {:induction false} FilePathsDistinct(root: string, perDir: int, i: int, j: int, ext: string)
    requires perDir != 0 && i != j
    ensures FilePath(root, perDir, i, ext) != FilePath(root, perDir, j, ext)
  {
    if FilePath(root, perDir, i, ext) == FilePath(root, perDir, j, ext) {
      Paths.NumberedPathInjective(root, Subdir(perDir, i), i, Subdir(perDir, j), j, "." + ext);
    }
  }

  /** Three files per directory: ids 1 to 3 go to directory 1, ids 4 to 6 to directory 2. */
  lemma {:induction false} ThreePerDir(id: int)
    requires 1 <= id <= 6
    ensures Subdir(3, id) == if id <= 3 then 1 else 2
    ensures id == 4 ==> FilePath("./test", 3, id, "idx") == "./test/2/4.idx"
  {
    SubdirIsCeil(3, id);
    if id == 4 {
      assert Text(2) == "2" && Text(4) == "4";
    }
  }

  // ---------------------------------------------------------------- Max

  /** The greatest of 0 and the numbers the names parse to, a name that does not parse counting as 0. */
  function MaxName(names: seq<string>): (m: int)
    ensures m >= 0
  {
    if names == [] then 0
    else
      var m := MaxName(names[..|names| - 1]);
      var id := AtoiOrZero(names[|names| - 1]);
      if id > m then id else m
  }

  /** `strings.Split(name, ".")[0]`: the text before the first dot, or all of it. */
  function Stem(name: string): (s: string)
    ensures s <= name && '.' !in s && (|s| < |name| ==> name[|s|] == '.')
  {
    if name == [] || name[0] == '.' then [] else [name[0]] + Stem(name[1..])
  }

  /**
   * The file scan from a running maximum `acc`: each file's stem must
   * parse, and the scan stops at the first that does not.
   */
  function StemScan(files: seq<string>, acc: int): int {
    if files == [] then acc
    else
      match Atoi(Stem(files[0]))
      case None => acc
      case Some(id) => StemScan(files[1..], if id > acc then id else acc)
  }

  /** The newest id under `root`: 0 for an empty root, otherwise the file scan of its greatest sub-directory. */
  function MaxId(root: string, fs: Listing): int {
    var top := MaxName(ListOf(fs, root));
    if top == 0 then 0 else StemScan(ListOf(fs, root + "/" + Text(top) + "/"), 0)
  }

  /** The greatest name's number bounds every name's, and is one of them unless it is 0. */
  lemma {:induction false} MaxNameIsGreatest(names: seq<string>)
    ensures forall i :: 0 <= i < |names| ==> AtoiOrZero(names[i]) <= MaxName(names)
    ensures MaxName(names) == 0 || exists i :: 0 <= i < |names| && AtoiOrZero(names[i]) == MaxName(names)
  {
    if names != [] {
      var init := names[..|names| - 1];
      MaxNameIsGreatest(init);
      assert forall i :: 0 <= i < |init| ==> init[i] == names[i];
    }
  }

  /** Whether the stems of the first `k` files all parse. */
  predicate StemsParse(files: seq<string>, k: int) {
    forall j :: 0 <= j < k && j < |files| ==> Atoi(Stem(files[j])).Some?
  }

  /** Dropping the first file of a scan whose first stems parse leaves the rest parsing. */
  lemma {:induction false} StemsParseTail(files: seq<string>, k: int)
    requires |files| > 0 && StemsParse(files, k)
    ensures StemsParse(files[1..], k - 1)
  {
    forall j | 0 <= j < k - 1 && j < |files| - 1
      ensures Atoi(Stem(files[1..][j])).Some?
    {
      assert files[1..][j] == files[j + 1];
    }
  }

  /** The file scan is at least its start and bounds every file reached before the first that does not parse. */
  lemma {:induction false} StemScanIsGreatest(files: seq<string>, acc: int)
    ensures StemScan(files, acc) >= acc
    ensures forall i :: 0 <= i < |files| && StemsParse(files, i + 1) ==>
              Atoi(Stem(files[i])).value <= StemScan(files, acc)
  {
    if files != [] && Atoi(Stem(files[0])).Some? {
      var next := StemScanStep(files, acc);
      var rest := files[1..];
      StemScanIsGreatest(rest, next);
      forall i | 0 <= i < |files| && StemsParse(files, i + 1)
        ensures Atoi(Stem(files[i])).value <= StemScan(files, acc)
      {
        if i > 0 {
          assert rest[i - 1] == files[i];
          StemsParseTail(files, i + 1);
        }
      }
    }
  }

  /** One step of the file scan over a first file whose stem parses, and the maximum it carries on with. */
  lemma {:induction false} StemScanStep(files: seq<string>, acc: int) returns (next: int)
    requires |files| > 0 && Atoi(Stem(files[0])).Some?
    ensures var id := Atoi(Stem(files[0])).value; next == (if id > acc then id else acc)
    ensures StemScan(files, acc) == StemScan(files[1..], next)
  {
    var id := Atoi(Stem(files[0])).value;
    next := if id > acc then id else acc;
  }

  /** The file scan ignores every file after the first whose stem does not parse. */
  lemma {:induction false} StemScanStops(files: seq<string>, acc: int, k: int)
    requires 0 <= k < |files| && StemsParse(files, k) && Atoi(Stem(files[k])).None?
    ensures StemScan(files, acc) == StemScan(files[..k], acc)
  {
    if k == 0 {
      assert files[..k] == [];
    } else {
      assert Atoi(Stem(files[0])).Some?;
      var rest := files[1..];
      assert rest[k - 1] == files[k];
      StemsParseTail(files, k);
      var next := StemScanStep(files, acc);
      StemScanStops(rest, next, k - 1);
      assert files[..k][0] == files[0] && files[..k][1..] == rest[..k - 1];
      var next' := StemScanStep(files[..k], acc);
    }
  }

  /** With no sub-directory named by a positive number, the newest id is 0. */
  lemma {:induction false} MaxIdOfEmptyRoot(root: string, fs: Listing)
    requires forall i :: 0 <= i < |ListOf(fs, root)| ==> AtoiOrZero(ListOf(fs, root)[i]) <= 0
    ensures MaxId(root, fs) == 0
  {
    MaxNameIsGreatest(ListOf(fs, root));
  }

  /** After ids 1 to 13 were created three per directory, the root holds sub-directories 1 to 5. */
  lemma {:induction false} MaxNameOfFive()
    ensures MaxName(["1", "2", "3", "4", "5"]) == 5
  {
    var names: seq<string> := ["1", "2", "3", "4", "5"];
    OneDigit('1'); OneDigit('2'); OneDigit('3'); OneDigit('4'); OneDigit('5');
    assert forall i :: 0 <= i < 5 ==> AtoiOrZero(names[i]) == i + 1;
    MaxNameIsGreatest(names);
  }

  /** The file `13.idx` scans as id 13. */
  lemma {:induction false} ScanThirteen()
    ensures StemScan(["13.idx"], 0) == 13
  {
    assert Stem("13.idx") == "13" by {
      assert "13.idx"[1..] == "3.idx" && "3.idx"[1..] == ".idx";
    }
    TwoDigits('1', '3');
    assert ["13.idx"][1..] == [];
  }

  /** ... and sub-directory 5 holds the file of id 13, the newest. */
  lemma {:induction false} MaxAfterThirteen()
    ensures MaxId("./test", map["./test" := ["1", "2", "3", "4", "5"], "./test/5/" := ["13.idx"]]) == 13
  {
    MaxNameOfFive();
    ScanThirteen();
    assert Text(5) == "5";
    assert "./test" + "/" + "5" + "/" == "./test/5/";
  }

  // ---------------------------------------------------------------- Directory

  class Directory {
    var Root: string
    var Ext: string
    var PerDir: int
    var Last: File?

    constructor (root: string, perDir: int, ext: string)
      ensures Root == root && PerDir == perDir && Ext == ext && Last == null
    {
      Root := root;
      PerDir := perDir;
      Ext := ext;
      Last := null;
    }

    /**
     * `Get(id)`: opens (creating it if needed) the file of `id` at its path;
     * `canOpen` is whether the operating system lets it be opened. The file
     * becomes `Last` when there was none or the last one's id is smaller,
     * and gets the id.
     */
    method Get(id: int, canOpen: bool) returns (f: File?, err: Option<OpenError>)
      requires PerDir != 0
      modifies this
      ensures Root == old(Root) && Ext == old(Ext) && PerDir == old(PerDir)
      ensures !canOpen ==> f == null && err == Some(OpenFailed) && Last == old(Last)
      ensures canOpen ==> (err == None && f != null && fresh(f) && f.ID == id &&
        f.Path == FilePath(Root, PerDir, id, Ext) &&
        Last == if old(Last) == null || old(Last.ID) < id then f else old(Last))
    {
      var path := Root + "/" + Text(Subdir(PerDir, id)) + "/" + Text(id) + "." + Ext;
      if !canOpen {
        return null, Some(OpenFailed);
      }
      f := new File(path);
      if Last == null || Last.ID < id {
        Last := f;
      }
      f.ID := id;
      err := None;
    }

    /** `Max()`: the newest id, as `MaxId` describes it, from the listings in `fs`. */
    method Max(fs: Listing) returns (max: int)
      ensures max == MaxId(Root, fs)
    {
      max := 0;
      var subdirs := ListOf(fs, Root);
      var i := 0;
      while i < |subdirs|
        invariant 0 <= i <= |subdirs| && max == MaxName(subdirs[..i])
      {
        assert subdirs[..i + 1][..i] == subdirs[..i];
        var id := AtoiOrZero(subdirs[i]);
        if id > max {
          max := id;
        }
        i := i + 1;
      }
      assert subdirs[..i] == subdirs;
      if max == 0 {
        return max;
      }
      var files := ListOf(fs, Root + "/" + Text(max) + "/");
      ghost var want := StemScan(files, 0);
      max := 0;
      var j := 0;
      while j < |files|
        invariant 0 <= j <= |files| && StemScan(files[j..], max) == want
      {
        assert files[j..][1..] == files[j + 1..];
        var id := Atoi(Stem(files[j]));
        if id.None? {
          return max;
        }
        if id.value > max {
          max := id.value;
        }
        j := j + 1;
      }
    }
  }

  /** `Get` never moves `Last` to a smaller id. */
  method GetKeepsNewest(d: Directory, id: int, canOpen: bool)
    requires d.PerDir != 0 && d.Last != null
    modifies d
    ensures d.Last != null && d.Last.ID >= old(d.Last.ID)
  {
    var f, err := d.Get(id, canOpen);
  }

  /**
   * `Dir(root, perDir, ext)`: a directory whose `Last` is the file of its
   * newest id, or of id 1 when it holds none; no directory when that file
   * cannot be opened.
   */
  method Dir(root: string, perDir: int, ext: string, fs: Listing, canOpen: bool) returns (d: Directory?)
    requires perDir != 0
    ensures !canOpen <==> d == null
    ensures d != null ==> (fresh(d) && d.Root == root && d.PerDir == perDir && d.Ext == ext &&
      d.Last != null && fresh(d.Last) &&
      d.Last.ID == (if MaxId(root, fs) == 0 then 1 else MaxId(root, fs)) &&
      d.Last.Path == FilePath(root, perDir, d.Last.ID, ext))
  {
    d := new Directory(root, perDir, ext);
    var id := d.Max(fs);
    if id == 0 {
      id := 1;
    }
    var f, err := d.Get(id, canOpen);
    if err.Some? {
      return null;
    }
    d.Last := f;
  }
}
