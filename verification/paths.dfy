/**
 * The numbered file layout shared by buckets and directories:
 * `root/<folder>/<id><suffix>`, both numbers printed with `%d`, and the
 * lexical path cleaning of Go's `filepath.Join` and `filepath.Clean` on a
 * slash-separated system.
 */
module Paths {
  import opened Decimal

  function NumberedPath(root: string, folder: int, id: int, suffix: string): string {
    root + "/" + Text(folder) + "/" + Text(id) + suffix
  }

  /** Splitting `a/b` at its first slash, when `a` holds none. */
  lemma {:induction false} SplitAtSlash(a: string, b: string, c: string, d: string)
    requires forall i :: 0 <= i < |a| ==> a[i] != '/'
    requires forall i :: 0 <= i < |c| ==> c[i] != '/'
    requires a + "/" + b == c + "/" + d
    ensures a == c && b == d
  {
    SlashAfter(a, b);
    SlashAfter(c, d);
    var x := a + "/" + b;
    assert |a| == |c|;
    assert a == x[..|a|] && b == x[|a| + 1..];
  }

  /** In `a/b` with no slash in `a`, the first slash sits right after `a`. */
  lemma {:induction false} SlashAfter(a: string, b: string)
    requires forall i :: 0 <= i < |a| ==> a[i] != '/'
    ensures var x := a + "/" + b; x[|a|] == '/' && forall i :: 0 <= i < |a| ==> x[i] != '/'
  {
    var x := a + "/" + b;
    forall i | 0 <= i < |a| ensures x[i] != '/' {
      assert x[i] == a[i];
    }
  }

  /** Two `root/a/b<suffix>` names with slash-free `a` and `c` agree part by part. */
  lemma {:induction false} SplitPath(root: string, a: string, b: string, c: string, d: string, suffix: string)
    requires forall i :: 0 <= i < |a| ==> a[i] != '/'
    requires forall i :: 0 <= i < |c| ==> c[i] != '/'
    requires root + "/" + a + "/" + b + suffix == root + "/" + c + "/" + d + suffix
    ensures a == c && b == d
  {
    var p1 := a + "/" + (b + suffix);
    var p2 := c + "/" + (d + suffix);
    assert root + "/" + a + "/" + b + suffix == (root + "/") + p1;
    assert root + "/" + c + "/" + d + suffix == (root + "/") + p2;
    assert p1 == ((root + "/") + p1)[|root| + 1..];
    assert p2 == ((root + "/") + p2)[|root| + 1..];
    SplitAtSlash(a, b + suffix, c, d + suffix);
    assert b == (b + suffix)[..|b|];
    assert d == (d + suffix)[..|d|];
  }

  /** Different (folder, id) pairs never share a path. */
  lemma {:induction false} NumberedPathInjective(root: string, f1: int, i1: int, f2: int, i2: int, suffix: string)
    requires NumberedPath(root, f1, i1, suffix) == NumberedPath(root, f2, i2, suffix)
    ensures f1 == f2 && i1 == i2
  {
    var a, b, c, d := Text(f1), Text(i1), Text(f2), Text(i2);
    TextChars(f1);
    TextChars(f2);
    assert forall i :: 0 <= i < |a| ==> a[i] != '/';
    assert forall i :: 0 <= i < |c| ==> c[i] != '/';
    SplitPath(root, a, b, c, d, suffix);
    AtoiOfText(f1);
    AtoiOfText(f2);
    AtoiOfText(i1);
    AtoiOfText(i2);
  }

  // ------------------------------------------------------ filepath.Clean

  predicate SlashFree(s: string) {
    forall i :: 0 <= i < |s| ==> s[i] != '/'
  }

  /** An ordinary path element: not empty, not `.` or `..`, no slash. */
  predicate Plain(a: string) {
    a != "" && a != "." && a != ".." && SlashFree(a)
  }

  /** The pieces of `s` between its slashes, empty ones included: `a//b` has `a`, `` and `b`. */
  function Split(s: string): (r: seq<string>)
    ensures |r| > 0
  {
    if s == [] then [""]
    else
      var rest := Split(s[1..]);
      if s[0] == '/' then [""] + rest else [[s[0]] + rest[0]] + rest[1..]
  }

  /** No piece holds a slash. */
  lemma {:induction false} SplitPiecesSlashFree(s: string)
    ensures forall i :: 0 <= i < |Split(s)| ==> SlashFree(Split(s)[i])
  {
    if s != [] {
      var rest := Split(s[1..]);
      SplitPiecesSlashFree(s[1..]);
      if s[0] != '/' {
        var first := [s[0]] + rest[0];
        forall i | 0 <= i < |first| ensures first[i] != '/' {
          if i > 0 {
            assert first[i] == rest[0][i - 1];
          }
        }
        assert Split(s) == [first] + rest[1..];
      }
    }
  }

  /** The pieces put back together, a slash between each two. */
  function JoinSlash(es: seq<string>): string {
    if es == [] then "" else if |es| == 1 then es[0] else es[0] + "/" + JoinSlash(es[1..])
  }

  /** A slash-free string is a single piece. */
  lemma {:induction false} SplitSlashFree(s: string)
    requires SlashFree(s)
    ensures Split(s) == [s]
  {
    if s != [] {
      SplitSlashFree(s[1..]);
      assert [s[0]] + s[1..] == s;
    }
  }

  /** Splitting `x/y` splits `x` and `y` apart. */
  lemma {:induction false} SplitAppend(x: string, y: string)
    ensures Split(x + "/" + y) == Split(x) + Split(y)
  {
    if x == [] {
      assert x + "/" + y == "/" + y && ("/" + y)[1..] == y;
    } else {
      var xy := x + "/" + y;
      assert xy[0] == x[0] && xy[1..] == x[1..] + "/" + y;
      SplitAppend(x[1..], y);
    }
  }

  /** Splitting undoes joining, for slash-free pieces. */
  lemma {:induction false} SplitOfJoinSlash(es: seq<string>)
    requires |es| > 0 && forall i :: 0 <= i < |es| ==> SlashFree(es[i])
    ensures Split(JoinSlash(es)) == es
  {
    SplitSlashFree(es[0]);
    if |es| > 1 {
      SplitOfJoinSlash(es[1..]);
      SplitAppend(es[0], JoinSlash(es[1..]));
    }
  }

  /** Joining undoes splitting. */
  lemma {:induction false} JoinSlashOfSplit(s: string)
    ensures JoinSlash(Split(s)) == s
  {
    if s != [] {
      var rest := Split(s[1..]);
      JoinSlashOfSplit(s[1..]);
      if s[0] == '/' {
        assert ([""] + rest)[1..] == rest;
      } else if |rest| > 1 {
        var es := [[s[0]] + rest[0]] + rest[1..];
        assert es[1..] == rest[1..];
      }
      assert s == [s[0]] + s[1..];
    }
  }

  /** Joining two non-empty lists of pieces puts a slash between their joins. */
  lemma {:induction false} JoinSlashAppend(k: seq<string>, l: seq<string>)
    requires |k| > 0 && |l| > 0
    ensures JoinSlash(k + l) == JoinSlash(k) + "/" + JoinSlash(l)
  {
    if |k| > 1 {
      assert (k + l)[1..] == k[1..] + l;
      JoinSlashAppend(k[1..], l);
    } else {
      assert (k + l)[1..] == l;
    }
  }

  /**
   * The pieces `Clean` keeps: none empty or `.`, and `..` only in a
   * leading run, and never in a rooted path.
   */
  predicate Resolved(es: seq<string>, rooted: bool) {
    (forall i :: 0 <= i < |es| ==> es[i] != "" && es[i] != "." && SlashFree(es[i])) &&
    (forall i, j :: 0 <= i < j < |es| && es[j] == ".." ==> es[i] == "..") &&
    (rooted ==> forall i :: 0 <= i < |es| ==> es[i] != "..")
  }

  /**
   * The pieces `es` processed onto the kept ones, left to right: an empty
   * piece or `.` is dropped, `..` removes the last kept piece unless that
   * is itself `..`, and is otherwise kept in a relative path and dropped at
   * the root.
   */
  function Resolve(kept: seq<string>, es: seq<string>, rooted: bool): seq<string>
    decreases |es|
  {
    if es == [] then kept
    else
      var e := es[0];
      var next :=
        if e == "" || e == "." then kept
        else if e == ".." then
          if |kept| > 0 && kept[|kept| - 1] != ".." then kept[..|kept| - 1]
          else if rooted then kept
          else kept + [".."]
        else kept + [e];
      Resolve(next, es[1..], rooted)
  }

  /** `filepath.Clean`: the shortest equivalent path, `.` for an empty one. */
  function Clean(p: string): (r: string)
    ensures r != ""
  {
    if p == "" then "."
    else
      var rooted := p[0] == '/';
      var body := JoinSlash(Resolve([], Split(p), rooted));
      if rooted then "/" + body else if body == "" then "." else body
  }

  /** `filepath.Join`: the non-empty elements from the first one on, joined with slashes and cleaned. */
  function Join(elems: seq<string>): string {
    if elems == [] then ""
    else if elems[0] == "" then Join(elems[1..])
    else Clean(JoinSlash(elems))
  }

  /** Processing pieces in two runs is processing them in one. */
  lemma {:induction false} ResolveAppend(kept: seq<string>, xs: seq<string>, ys: seq<string>, rooted: bool)
    ensures Resolve(kept, xs + ys, rooted) == Resolve(Resolve(kept, xs, rooted), ys, rooted)
    decreases |xs|
  {
    if xs != [] {
      assert (xs + ys)[0] == xs[0] && (xs + ys)[1..] == xs[1..] + ys;
      var e := xs[0];
      var next :=
        if e == "" || e == "." then kept
        else if e == ".." then
          if |kept| > 0 && kept[|kept| - 1] != ".." then kept[..|kept| - 1]
          else if rooted then kept
          else kept + [".."]
        else kept + [e];
      ResolveAppend(next, xs[1..], ys, rooted);
    } else {
      assert xs + ys == ys;
    }
  }

  /** Whatever slash-free pieces it is given, `Resolve` keeps a resolved list. */
  lemma {:induction false} ResolveIsResolved(kept: seq<string>, es: seq<string>, rooted: bool)
    requires Resolved(kept, rooted) && forall i :: 0 <= i < |es| ==> SlashFree(es[i])
    ensures Resolved(Resolve(kept, es, rooted), rooted)
    decreases |es|
  {
    if es != [] {
      var e := es[0];
      var next :=
        if e == "" || e == "." then kept
        else if e == ".." then
          if |kept| > 0 && kept[|kept| - 1] != ".." then kept[..|kept| - 1]
          else if rooted then kept
          else kept + [".."]
        else kept + [e];
      assert Resolved(next, rooted) by {
        if e == ".." && !(|kept| > 0 && kept[|kept| - 1] != "..") && !rooted {
          assert forall i :: 0 <= i < |kept| ==> kept[i] == "..";
        }
      }
      ResolveIsResolved(next, es[1..], rooted);
    }
  }

  /** Pieces already resolved pass through `Resolve` unchanged. */
  lemma {:induction false} ResolveOfResolved(kept: seq<string>, es: seq<string>, rooted: bool)
    requires Resolved(kept + es, rooted)
    ensures Resolve(kept, es, rooted) == kept + es
    decreases |es|
  {
    if es != [] {
      var all := kept + es;
      assert all[|kept|] == es[0];
      if es[0] == ".." {
        forall i | 0 <= i < |kept| ensures kept[i] == ".." {
          assert all[i] == kept[i];
        }
      }
      assert (kept + [es[0]]) + es[1..] == all;
      ResolveOfResolved(kept + [es[0]], es[1..], rooted);
    } else {
      assert kept + es == kept;
    }
  }

  /** The join of resolved pieces, when there are any, starts with a piece, not a slash. */
  lemma {:induction false} JoinOfResolved(es: seq<string>, rooted: bool)
    requires Resolved(es, rooted) && es != []
    ensures var j := JoinSlash(es); j != "" && j[0] != '/' && Split(j) == es
  {
    SplitOfJoinSlash(es);
    if |es| > 1 {
      assert JoinSlash(es)[0] == es[0][0];
    }
  }

  /** Cleaning a clean path changes nothing. */
  lemma {:induction false} CleanIdempotent(p: string)
    ensures Clean(Clean(p)) == Clean(p)
  {
    if p != "" {
      var rooted := p[0] == '/';
      Resolved0(rooted);
      var kept := Resolve([], Split(p), rooted);
      SplitPiecesSlashFree(p);
      ResolveIsResolved([], Split(p), rooted);
      var q := Clean(p);
      if kept == [] {
        if rooted {
          assert q == "/" && Split(q) == [""] + Split("");
          assert Resolve([], ["", ""], true) == [];
        } else {
          SplitSlashFree(".");
        }
      } else {
        JoinOfResolved(kept, rooted);
        ResolveOfResolved([], kept, rooted);
        assert [] + kept == kept;
        if rooted {
          var body := JoinSlash(kept);
          assert q == "/" + body && q[1..] == body;
          assert Split(q) == [""] + kept;
          assert Resolve([], [""] + kept, true) == Resolve([], kept, true) by {
            assert ([""] + kept)[1..] == kept;
          }
        }
      }
    } else {
      SplitSlashFree(".");
    }
  }

  lemma {:induction false} Resolved0(rooted: bool)
    ensures Resolved([], rooted)
  {
  }

  /** The pieces of `dir/a/b`, for slash-free `a` and `b`. */
  lemma {:induction false} SplitDirAB(dir: string, a: string, b: string)
    requires SlashFree(a) && SlashFree(b)
    ensures Split(dir + "/" + a + "/" + b) == Split(dir) + [a, b]
  {
    SplitAppend(dir, a + "/" + b);
    SplitAppend(a, b);
    SplitSlashFree(a);
    SplitSlashFree(b);
    assert dir + "/" + a + "/" + b == dir + "/" + (a + "/" + b);
  }

  /** A directory that does not clean to `.` or `/` cleans to its kept pieces joined, after a slash when rooted. */
  lemma {:induction false} DirPieces(dir: string) returns (kept: seq<string>)
    requires dir != "" && Clean(dir) != "." && Clean(dir) != "/"
    ensures kept == Resolve([], Split(dir), dir[0] == '/') && kept != []
    ensures Resolved(kept, dir[0] == '/')
    ensures Clean(dir) == (if dir[0] == '/' then "/" else "") + JoinSlash(kept)
  {
    var rooted := dir[0] == '/';
    kept := Resolve([], Split(dir), rooted);
    SplitPiecesSlashFree(dir);
    ResolveIsResolved([], Split(dir), rooted);
  }

  /** Two ordinary names after resolved pieces are kept as they are. */
  lemma {:induction false} ResolveNames(kept: seq<string>, a: string, b: string, rooted: bool)
    requires Resolved(kept, rooted)
    requires Plain(a) && Plain(b)
    ensures Resolve(kept, [a, b], rooted) == kept + [a, b]
  {
    var all := kept + [a, b];
    assert all[|kept|] == a && all[|kept| + 1] == b;
    assert Resolved(all, rooted) by {
      forall i, j | 0 <= i < j < |all| && all[j] == ".." ensures all[i] == ".." {
        assert j < |kept| && all[i] == kept[i] && all[j] == kept[j];
      }
    }
    ResolveOfResolved(kept, [a, b], rooted);
  }

  /** `Join` of a directory and two names cleans `dir/a/b`. */
  lemma {:induction false} JoinThree(dir: string, a: string, b: string)
    requires dir != ""
    ensures Join([dir, a, b]) == Clean(dir + "/" + a + "/" + b)
  {
    assert JoinSlash([a, b]) == a + "/" + b by {
      assert [a, b][1..] == [b];
    }
    assert [dir, a, b][1..] == [a, b];
    assert dir + "/" + (a + "/" + b) == dir + "/" + a + "/" + b;
  }

  /** `Clean` of a path whose pieces resolve to a non-empty list. */
  lemma {:induction false} CleanOfPieces(x: string, kept: seq<string>)
    requires x != "" && kept == Resolve([], Split(x), x[0] == '/') && JoinSlash(kept) != ""
    ensures Clean(x) == (if x[0] == '/' then "/" else "") + JoinSlash(kept)
  {
  }

  /**
   * Joining a directory (one that does not clean to `.` or `/`) with two
   * ordinary names puts the names, with slashes, after the cleaned
   * directory.
   */
  lemma {:induction false} JoinCleansDir(dir: string, a: string, b: string)
    requires dir != "" && Clean(dir) != "." && Clean(dir) != "/"
    requires Plain(a) && Plain(b)
    ensures Join([dir, a, b]) == Clean(dir) + "/" + a + "/" + b
  {
    var kept := DirPieces(dir);
    var rooted := dir[0] == '/';
    var x := dir + "/" + a + "/" + b;
    JoinThree(dir, a, b);
    SplitDirAB(dir, a, b);
    ResolveAppend([], Split(dir), [a, b], rooted);
    ResolveNames(kept, a, b, rooted);
    JoinSlashAppend(kept, [a, b]);
    assert JoinSlash([a, b]) == a + "/" + b by {
      assert [a, b][1..] == [b];
    }
    assert x[0] == dir[0];
    CleanOfPieces(x, kept + [a, b]);
    var front := if rooted then "/" else "";
    Regroup(front, JoinSlash(kept), Clean(dir), a, b);
  }

  /** Regrouping `front + (j/(a/b))` as `(front + j)/a/b`. */
  lemma {:induction false} Regroup(front: string, j: string, dir: string, a: string, b: string)
    requires dir == front + j
    ensures front + (j + "/" + (a + "/" + b)) == dir + "/" + a + "/" + b
  {
  }

  lemma {:induction false} JoinSlashThree(a: string, b: string, c: string)
    ensures JoinSlash([a, b, c]) == a + "/" + b + "/" + c
  {
    assert JoinSlash([b, c]) == b + "/" + c by { assert [b, c][1..] == [c]; }
    assert [a, b, c][1..] == [b, c];
  }

  lemma {:induction false} JoinSlashDotDir(a: string, b: string, c: string)
    ensures JoinSlash([".", a, b, c, ""]) == "./" + a + "/" + b + "/" + c + "/"
  {
    assert JoinSlash([c, ""]) == c + "/" by { assert [c, ""][1..] == [""]; }
    assert JoinSlash([b, c, ""]) == b + "/" + (c + "/") by { assert [b, c, ""][1..] == [c, ""]; }
    assert JoinSlash([a, b, c, ""]) == a + "/" + (b + "/" + (c + "/")) by { assert [a, b, c, ""][1..] == [b, c, ""]; }
    assert [".", a, b, c, ""][1..] == [a, b, c, ""];
  }

  lemma {:induction false} ResolveDotDir(a: string, b: string, c: string)
    requires Plain(a) && Plain(b) && Plain(c)
    ensures Resolve([], [".", a, b, c, ""], false) == [a, b, c]
  {
    assert [".", a, b, c, ""][1..] == [a, b, c] + [""];
    ResolveAppend([], [a, b, c], [""], false);
    assert Resolved([] + [a, b, c], false);
    ResolveOfResolved([], [a, b, c], false);
  }

  /** `./a/b/c/` cleans to `a/b/c`: the leading `.` and the trailing slash go. */
  lemma {:induction false} CleanDotDir(a: string, b: string, c: string)
    requires Plain(a) && Plain(b) && Plain(c)
    ensures Clean("./" + a + "/" + b + "/" + c + "/") == a + "/" + b + "/" + c
  {
    var es := [".", a, b, c, ""];
    JoinSlashDotDir(a, b, c);
    assert SlashFree(".") && SlashFree("");
    SplitOfJoinSlash(es);
    ResolveDotDir(a, b, c);
    JoinSlashThree(a, b, c);
  }
}
