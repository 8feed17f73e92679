/**
 * The parts of Node's POSIX `path` module the build scripts call:
 * `path.normalize` (through `path.join`), `path.join`, `path.dirname` and
 * `path.extname`. Paths are plain strings with `/` as the separator.
 */
module PosixPath {
  import opened Text

  /**
   * Resolves the segments of a path left to right: empty and `.` segments are
   * dropped, `..` removes the previous segment, and a `..` with nothing to
   * remove is kept only for a relative path (`aboveRoot`).
   */
  function Resolve(parts: seq<string>, aboveRoot: bool, acc: seq<string>): seq<string>
    decreases |parts|
  {
    if |parts| == 0 then acc
    else
      var part := parts[0];
      if part == "" || part == "." then Resolve(parts[1..], aboveRoot, acc)
      else if part == ".." then
        if |acc| > 0 && acc[|acc| - 1] != ".." then Resolve(parts[1..], aboveRoot, acc[..|acc| - 1])
        else if aboveRoot then Resolve(parts[1..], aboveRoot, acc + [".."])
        else Resolve(parts[1..], aboveRoot, acc)
      else Resolve(parts[1..], aboveRoot, acc + [part])
  }

  /** `path.normalize(p)`: a leading `/` and a trailing `/` are both kept. */
  function Normalize(p: string): (r: string)
    ensures |p| > 0 && p[0] == '/' ==> |r| > 0 && r[0] == '/'
  {
    if |p| == 0 then "."
    else
      var absolute := p[0] == '/';
      var trailing := p[|p| - 1] == '/';
      var body := Segments(p);
      if |body| == 0 then (if absolute then "/" else if trailing then "./" else ".")
      else if absolute && trailing then "/" + body + "/"
      else if absolute then "/" + body
      else if trailing then body + "/"
      else body
  }

  /** The resolved segments of a non-empty path joined with `/`. */
  function Segments(p: string): string
    requires |p| > 0
  {
    Join(Resolve(Split(p, '/'), p[0] != '/', []), "/")
  }

  /** The non-empty arguments joined with `/`. */
  function JoinArgs(args: seq<string>): string
    decreases |args|
  {
    if |args| == 0 then ""
    else if |args[0]| == 0 then JoinArgs(args[1..])
    else
      var rest := JoinArgs(args[1..]);
      if |rest| == 0 then args[0] else args[0] + "/" + rest
  }

  /** `path.join(...args)`: the non-empty arguments joined with `/`, then normalized. */
  function JoinPaths(args: seq<string>): string
  {
    var joined := JoinArgs(args);
    if |joined| == 0 then "." else Normalize(joined)
  }

  lemma JoinArgsTwo(a: string, b: string)
    requires |a| > 0 && |b| > 0
    ensures JoinArgs([a, b]) == a + "/" + b
  {
    assert [a, b][1..] == [b];
    assert [b][1..] == [];
    assert JoinArgs([b]) == b;
  }

  lemma JoinArgsThree(a: string, b: string, c: string)
    requires |a| > 0 && |b| > 0 && |c| > 0
    ensures JoinArgs([a, b, c]) == a + "/" + b + "/" + c
  {
    assert [a, b, c][1..] == [b, c];
    JoinArgsTwo(b, c);
  }

  /** Scans `p` right to left from `i` for the separator before the last name; -1 if none at index 1 or later. */
  function DirEnd(p: string, i: nat, seenName: bool): (r: int)
    requires i < |p|
    ensures r == -1 || (1 <= r <= i && p[r] == '/')
    decreases i
  {
    if i < 1 then -1
    else if p[i] == '/' then (if seenName then i else DirEnd(p, i - 1, false))
    else DirEnd(p, i - 1, true)
  }

  /** `path.dirname(p)`. */
  function Dirname(p: string): string
  {
    if |p| == 0 then "."
    else
      var end := DirEnd(p, |p| - 1, false);
      if end == -1 then (if p[0] == '/' then "/" else ".")
      else if p[0] == '/' && end == 1 then "//"
      else p[..end]
  }

  /** `p` without its trailing separators. */
  function TrimTrailingSlashes(p: string): string
    decreases |p|
  {
    if |p| > 0 && p[|p| - 1] == '/' then TrimTrailingSlashes(p[..|p| - 1]) else p
  }

  /** The text after the last separator of `q`. */
  function AfterLastSlash(q: string): (r: string)
    ensures '/' !in r
    decreases |q|
  {
    if |q| == 0 || q[|q| - 1] == '/' then "" else AfterLastSlash(q[..|q| - 1]) + [q[|q| - 1]]
  }

  /** Index of the last `.` in `s`, or -1. */
  function LastDot(s: string): (r: int)
    ensures -1 <= r < |s|
    ensures r >= 0 ==> s[r] == '.' && '.' !in s[r + 1..]
    ensures r == -1 ==> '.' !in s
    decreases |s|
  {
    if |s| == 0 then -1
    else if s[|s| - 1] == '.' then |s| - 1
    else
      var r := LastDot(s[..|s| - 1]);
      assert s == s[..|s| - 1] + [s[|s| - 1]];
      r
  }

  /**
   * `path.extname(p)`: from the last `.` of the last name to its end; empty
   * when that name has no `.`, starts with its only dots, or is `..`.
   */
  function Extname(p: string): (r: string)
    ensures r == "" || (r[0] == '.' && '.' !in r[1..] && '/' !in r)
  {
    var name := AfterLastSlash(TrimTrailingSlashes(p));
    var d := LastDot(name);
    if d <= 0 || name == ".." then "" else name[d..]
  }

  /** A relative path whose segments are all ordinary names. */
  predicate Clean(p: string) {
    forall i :: 0 <= i < |Split(p, '/')| ==> Split(p, '/')[i] != "" && Split(p, '/')[i] != "." && Split(p, '/')[i] != ".."
  }

  /** Ordinary segments are all kept, whether or not the path is relative. */
  lemma {:induction false} ResolveOrdinary(parts: seq<string>, aboveRoot: bool, acc: seq<string>)
    requires forall i :: 0 <= i < |parts| ==> parts[i] != "" && parts[i] != "." && parts[i] != ".."
    ensures Resolve(parts, aboveRoot, acc) == acc + parts
    decreases |parts|
  {
    if |parts| > 0 {
      ResolveOrdinary(parts[1..], aboveRoot, acc + [parts[0]]);
      assert acc + [parts[0]] + parts[1..] == acc + parts;
    }
  }

  /** Resolving proceeds segment by segment, so a concatenation resolves in two stages. */
  lemma {:induction false} ResolveAppend(a: seq<string>, b: seq<string>, aboveRoot: bool, acc: seq<string>)
    ensures Resolve(a + b, aboveRoot, acc) == Resolve(b, aboveRoot, Resolve(a, aboveRoot, acc))
    decreases |a|
  {
    if |a| == 0 {
      assert a + b == b;
    } else {
      assert (a + b)[0] == a[0] && (a + b)[1..] == a[1..] + b;
      var part := a[0];
      if part == "" || part == "." {
        ResolveAppend(a[1..], b, aboveRoot, acc);
      } else if part == ".." {
        if |acc| > 0 && acc[|acc| - 1] != ".." {
          ResolveAppend(a[1..], b, aboveRoot, acc[..|acc| - 1]);
        } else if aboveRoot {
          ResolveAppend(a[1..], b, aboveRoot, acc + [".."]);
        } else {
          ResolveAppend(a[1..], b, aboveRoot, acc);
        }
      } else {
        ResolveAppend(a[1..], b, aboveRoot, acc + [part]);
      }
    }
  }

  /** `k` separators. */
  function Slashes(k: nat): (r: string)
    ensures |r| == k && forall i :: 0 <= i < k ==> r[i] == '/'
  {
    seq(k, _ => '/')
  }

  /** `k` empty segments. */
  function Empties(k: nat): (r: seq<string>)
    ensures |r| == k && forall i :: 0 <= i < k ==> r[i] == ""
  {
    seq(k, _ => "")
  }

  lemma {:induction false} SplitSlashes(k: nat, p: string)
    ensures Split(Slashes(k) + p, '/') == Empties(k) + Split(p, '/')
    decreases k
  {
    var s := Slashes(k) + p;
    if k == 0 {
      assert s == p && Empties(k) + Split(p, '/') == Split(p, '/');
    } else {
      assert s[0] == '/' && s[1..] == Slashes(k - 1) + p;
      assert Split(s, '/') == [""] + Split(s[1..], '/');
      SplitSlashes(k - 1, p);
      assert Empties(k) == [""] + Empties(k - 1);
    }
  }

  lemma {:induction false} ResolveEmpties(k: nat, parts: seq<string>, acc: seq<string>)
    ensures Resolve(Empties(k) + parts, false, acc) == Resolve(parts, false, acc)
    decreases k
  {
    var e := Empties(k) + parts;
    if k == 0 {
      assert e == parts;
    } else {
      assert e[0] == "" && e[1..] == Empties(k - 1) + parts;
      ResolveEmpties(k - 1, parts, acc);
    }
  }

  /** Normalizing separators followed by an ordinary relative path leaves a single leading `/`. */
  lemma RootedClean(k: nat, p: string)
    requires k >= 1 && Clean(p)
    ensures Normalize(Slashes(k) + p) == "/" + p
  {
    var parts := Split(p, '/');
    assert parts[0] != "";
    var q := Slashes(k) + p;
    SplitSlashes(k, p);
    ResolveEmpties(k, parts, []);
    ResolveOrdinary(parts, false, []);
    assert [] + parts == parts;
    JoinSplit(p, '/');
    assert p[|p| - 1] != '/' by {
      if p[|p| - 1] == '/' {
        LastPieceEmpty(p);
      }
    }
    assert q[|q| - 1] == p[|p| - 1];
  }

  /** Rooting an ordinary relative path only puts a `/` in front of it. */
  lemma RootClean(p: string)
    requires Clean(p)
    ensures JoinPaths(["/", p]) == "/" + p
  {
    assert Split(p, '/')[0] != "";
    assert JoinArgs(["/", p]) == Slashes(2) + p by {
      assert (["/", p])[1..] == [p];
      assert ([p])[1..] == [];
      assert JoinArgs([p]) == p;
    }
    RootedClean(2, p);
  }

  /** Two ordinary relative paths joined by a separator make an ordinary relative path. */
  lemma CleanJoin(a: string, b: string)
    requires Clean(a) && Clean(b)
    ensures Clean(a + "/" + b)
  {
    SplitAround(a, b, '/');
  }

  /** Scanning back from a name to the separator before it finds that separator. */
  lemma {:induction false} DirEndToSlash(p: string, i: nat, j: nat)
    requires 1 <= j <= i < |p| && p[j] == '/'
    requires forall m :: j < m <= i ==> p[m] != '/'
    ensures DirEnd(p, i, true) == j
    decreases i
  {
    if i > j {
      DirEndToSlash(p, i - 1, j);
    }
  }

  /** The directory of `/d/name` is `/d`. */
  lemma DirnameOfName(d: string, name: string)
    requires |d| > 0 && d[|d| - 1] != '/' && |name| > 0 && '/' !in name
    ensures Dirname("/" + d + "/" + name) == "/" + d
  {
    var p := "/" + d + "/" + name;
    var j := |d| + 1;
    assert p[j] == '/';
    assert forall m :: j < m < |p| ==> p[m] == name[m - j - 1];
    if |p| - 2 >= j + 1 {
      DirEndToSlash(p, |p| - 2, j);
    }
    assert DirEnd(p, |p| - 1, false) == j;
    assert p[..j] == "/" + d;
  }

  /** A string ending in the separator splits into a last piece that is empty. */
  lemma {:induction false} LastPieceEmpty(p: string)
    requires |p| > 0 && p[|p| - 1] == '/'
    ensures Split(p, '/')[|Split(p, '/')| - 1] == ""
    decreases |p|
  {
    if |p| > 1 {
      LastPieceEmpty(p[1..]);
    }
  }
}
