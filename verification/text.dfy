/**
 * The JavaScript string operations the build scripts rely on, stated over
 * `seq<char>`: `startsWith`, `indexOf`, `slice`, `split` on a character and on
 * the `/\s+/` pattern, `join`, trimming with `/(^\s+|\s+$)/g`, number-to-string
 * conversion, and `String.prototype.replace` with a string pattern (which
 * replaces the first occurrence and expands `$`-patterns in the replacement).
 */
module Text {

  /** `s.startsWith(prefix)`. */
  predicate StartsWith(s: string, prefix: string) {
    |prefix| <= |s| && s[..|prefix|] == prefix
  }

  lemma StartsWithAppend(s: string, prefix: string, t: string)
    requires StartsWith(s, prefix)
    ensures StartsWith(s + t, prefix)
  {
    assert (s + t)[..|prefix|] == s[..|prefix|];
  }

  lemma StartsWithBoth(x: string, s: string, prefix: string)
    requires StartsWith(s, prefix)
    ensures StartsWith(x + s, x + prefix)
  {
    assert (x + s)[..|x + prefix|] == x + s[..|prefix|];
  }

  /** `s.endsWith(suffix)`. */
  predicate EndsWith(s: string, suffix: string) {
    |suffix| <= |s| && s[|s| - |suffix|..] == suffix
  }

  /** `pat` occurs in `s` starting at index `i`. */
  predicate OccursAt(s: string, pat: string, i: nat) {
    i + |pat| <= |s| && s[i..i + |pat|] == pat
  }

  /** Leftmost occurrence of `pat` at or after `i`, or -1. */
  function SearchFrom(s: string, pat: string, i: nat): (r: int)
    requires i <= |s|
    ensures r == -1 || (i <= r && OccursAt(s, pat, r))
    ensures r == -1 ==> forall k :: i <= k <= |s| ==> !OccursAt(s, pat, k)
    ensures r != -1 ==> forall k :: i <= k < r ==> !OccursAt(s, pat, k)
    decreases |s| - i
  {
    if OccursAt(s, pat, i) then i
    else if i == |s| then -1
    else SearchFrom(s, pat, i + 1)
  }

  /** `s.indexOf(pat, from)`: the start position is clamped to the length of `s`. */
  function IndexOf(s: string, pat: string, from: nat): int
  {
    SearchFrom(s, pat, if from <= |s| then from else |s|)
  }

  /** `s.slice(i)` for a non-negative `i`: out-of-range starts give the empty string. */
  function SliceFrom(s: string, i: nat): (r: string)
    ensures i <= |s| ==> r == s[i..]
    ensures |s| <= i ==> r == ""
  {
    if i <= |s| then s[i..] else ""
  }

  /** `s.slice(0, n)` for a non-negative `n`. */
  function SliceTo(s: string, n: nat): (r: string)
    ensures n <= |s| ==> r == s[..n]
    ensures |s| <= n ==> r == s
  {
    if n <= |s| then s[..n] else s
  }

  /** `xs.join(sep)`. */
  function Join(xs: seq<string>, sep: string): string
  {
    if |xs| == 0 then ""
    else if |xs| == 1 then xs[0]
    else xs[0] + sep + Join(xs[1..], sep)
  }

  /** Concatenation of a sequence of strings. */
  function Concat(xs: seq<string>): string
  {
    if |xs| == 0 then "" else xs[0] + Concat(xs[1..])
  }

  lemma ConcatAppend(xs: seq<string>, ys: seq<string>)
    ensures Concat(xs + ys) == Concat(xs) + Concat(ys)
  {
    if |xs| == 0 {
      assert xs + ys == ys;
    } else {
      assert (xs + ys)[1..] == xs[1..] + ys;
      ConcatAppend(xs[1..], ys);
    }
  }

  /** `s.split(c)` for a one-character separator. */
  function Split(s: string, c: char): (r: seq<string>)
    ensures |r| >= 1
    decreases |s|
  {
    if |s| == 0 then [""]
    else if s[0] == c then [""] + Split(s[1..], c)
    else
      var rest := Split(s[1..], c);
      [[s[0]] + rest[0]] + rest[1..]
  }

  /** No piece of a split contains the separator. */
  lemma {:induction false} SplitPiecesFree(s: string, c: char)
    ensures forall i :: 0 <= i < |Split(s, c)| ==> c !in Split(s, c)[i]
    decreases |s|
  {
    if |s| > 0 {
      SplitPiecesFree(s[1..], c);
    }
  }

  /** Joining the pieces of a split with the separator gives the string back. */
  lemma {:induction false} JoinSplit(s: string, c: char)
    ensures Join(Split(s, c), [c]) == s
    decreases |s|
  {
    if |s| > 0 {
      var rest := Split(s[1..], c);
      JoinSplit(s[1..], c);
      if s[0] == c {
        assert Split(s, c) == [""] + rest;
        assert ([""] + rest)[1..] == rest;
      } else {
        var r := Split(s, c);
        assert r == [[s[0]] + rest[0]] + rest[1..];
        if |rest| == 1 {
          assert Join(r, [c]) == [s[0]] + rest[0];
        } else {
          assert r[1..] == rest[1..];
          assert Join(r, [c]) == [s[0]] + rest[0] + [c] + Join(rest[1..], [c]);
        }
      }
    }
  }

  lemma {:induction false} SplitPrefix(a: string, b: string, c: char)
    requires c !in a
    ensures Split(a + [c] + b, c) == [a] + Split(b, c)
    decreases |a|
  {
    if |a| == 0 {
      assert a + [c] + b == [c] + b;
      assert ([c] + b)[1..] == b;
    } else {
      var s := a + [c] + b;
      assert s[1..] == a[1..] + [c] + b;
      SplitPrefix(a[1..], b, c);
      assert [a[0]] + a[1..] == a;
    }
  }

  /** A separator between two strings separates their pieces. */
  lemma {:induction false} SplitAround(a: string, b: string, c: char)
    ensures Split(a + [c] + b, c) == Split(a, c) + Split(b, c)
    decreases |a|
  {
    var s := a + [c] + b;
    if |a| == 0 {
      assert s == [c] + b && s[0] == c && s[1..] == b;
      assert Split(s, c) == [""] + Split(b, c);
    } else {
      assert s[0] == a[0] && s[1..] == a[1..] + [c] + b;
      SplitAround(a[1..], b, c);
      if a[0] != c {
        SplitAroundStep(a, b, c);
      } else {
        assert Split(s, c) == [""] + Split(s[1..], c);
        assert Split(a, c) == [""] + Split(a[1..], c);
      }
    }
  }

  lemma SplitAroundStep(a: string, b: string, c: char)
    requires |a| > 0 && a[0] != c
    requires Split(a[1..] + [c] + b, c) == Split(a[1..], c) + Split(b, c)
    ensures Split(a + [c] + b, c) == Split(a, c) + Split(b, c)
  {
    var s := a + [c] + b;
    assert s[0] == a[0] && s[1..] == a[1..] + [c] + b;
    SplitCons(s, c);
    SplitCons(a, c);
    ConsPieces(a[0], Split(a[1..], c), Split(b, c));
  }

  /** The definition's last case, as a lemma. */
  lemma SplitCons(s: string, c: char)
    requires |s| > 0 && s[0] != c
    ensures Split(s, c) == [[s[0]] + Split(s[1..], c)[0]] + Split(s[1..], c)[1..]
  {
  }

  lemma ConsPieces(x: char, xs: seq<string>, ys: seq<string>)
    requires |xs| >= 1
    ensures [[x] + (xs + ys)[0]] + (xs + ys)[1..] == ([[x] + xs[0]] + xs[1..]) + ys
  {
    assert (xs + ys)[0] == xs[0];
    assert (xs + ys)[1..] == xs[1..] + ys;
  }

  lemma {:induction false} SplitWhole(a: string, c: char)
    requires c !in a
    ensures Split(a, c) == [a]
    decreases |a|
  {
    if |a| > 0 {
      SplitWhole(a[1..], c);
      assert [a[0]] + a[1..] == a;
    }
  }

  /** Splitting a join recovers the pieces, provided no piece contains the separator. */
  lemma {:induction false} SplitJoin(xs: seq<string>, c: char)
    requires |xs| >= 1
    requires forall i :: 0 <= i < |xs| ==> c !in xs[i]
    ensures Split(Join(xs, [c]), c) == xs
    decreases |xs|
  {
    if |xs| == 1 {
      SplitWhole(xs[0], c);
    } else {
      SplitJoin(xs[1..], c);
      SplitPrefix(xs[0], Join(xs[1..], [c]), c);
      assert [xs[0]] + xs[1..] == xs;
    }
  }

  /** A character absent from the string is absent from every piece of its split. */
  lemma {:induction false} SplitKeepsOut(s: string, c: char, d: char)
    requires d !in s
    ensures forall i :: 0 <= i < |Split(s, c)| ==> d !in Split(s, c)[i]
    decreases |s|
  {
    if |s| > 0 {
      SplitKeepsOut(s[1..], c, d);
    }
  }

  /** The number of occurrences of `c` in `s`. */
  function Count(s: string, c: char): (n: nat)
    ensures n <= |s|
    ensures n == 0 <==> c !in s
    decreases |s|
  {
    if |s| == 0 then 0 else (if s[0] == c then 1 else 0) + Count(s[1..], c)
  }

  lemma {:induction false} CountAppend(a: string, b: string, c: char)
    ensures Count(a + b, c) == Count(a, c) + Count(b, c)
    decreases |a|
  {
    if |a| == 0 {
      assert a + b == b;
    } else {
      CountAppend(a[1..], b, c);
      assert (a + b)[1..] == a[1..] + b;
    }
  }

  /** A split on `c` has one piece more than `s` has occurrences of `c`. */
  lemma {:induction false} CountSplit(s: string, c: char)
    ensures |Split(s, c)| == Count(s, c) + 1
    decreases |s|
  {
    if |s| > 0 {
      CountSplit(s[1..], c);
    }
  }

  /** Joining `n` pieces free of `c` with `c` puts exactly `n - 1` of them in. */
  lemma CountJoin(xs: seq<string>, c: char)
    requires |xs| >= 1
    requires forall i :: 0 <= i < |xs| ==> c !in xs[i]
    ensures Count(Join(xs, [c]), c) == |xs| - 1
  {
    SplitJoin(xs, c);
    CountSplit(Join(xs, [c]), c);
  }

  /** Concatenating strings free of `c` gives a string free of `c`. */
  lemma {:induction false} ConcatKeepsOut(xs: seq<string>, c: char)
    requires forall i :: 0 <= i < |xs| ==> c !in xs[i]
    ensures c !in Concat(xs)
    decreases |xs|
  {
    if |xs| > 0 {
      ConcatKeepsOut(xs[1..], c);
    }
  }

  /** The characters JavaScript's `\s` class matches. */
  predicate IsSpace(c: char) {
    c == '\t' || c == '\n' || c == '\U{000B}' || c == '\U{000C}' || c == '\r' || c == ' '
    || c == '\U{00A0}' || c == '\U{1680}' || ('\U{2000}' <= c <= '\U{200A}')
    || c == '\U{2028}' || c == '\U{2029}' || c == '\U{202F}' || c == '\U{205F}'
    || c == '\U{3000}' || c == '\U{FEFF}'
  }

  predicate AllSpace(s: string) {
    forall i :: 0 <= i < |s| ==> IsSpace(s[i])
  }

  /** `s` with its maximal leading run of whitespace removed. */
  function DropSpaces(s: string): (r: string)
    ensures |r| <= |s|
    ensures |r| > 0 ==> !IsSpace(r[0])
    decreases |s|
  {
    if |s| > 0 && IsSpace(s[0]) then DropSpaces(s[1..]) else s
  }

  /** What is dropped is whitespace, and what is left is the rest of the text. */
  lemma {:induction false} DropSpacesSuffix(s: string)
    ensures var r := DropSpaces(s); r == s[|s| - |r|..] && AllSpace(s[..|s| - |r|])
    decreases |s|
  {
    if |s| > 0 && IsSpace(s[0]) {
      DropSpacesSuffix(s[1..]);
      var r := DropSpaces(s);
      var n := |s| - |r|;
      assert s[1..][n - 1..] == s[n..];
      assert forall k :: 1 <= k < n ==> s[..n][k] == s[1..][..n - 1][k - 1];
    }
  }

  /** `s` with its maximal trailing run of whitespace removed. */
  function DropTrailingSpaces(s: string): (r: string)
    ensures |r| <= |s|
    ensures |r| > 0 ==> !IsSpace(r[|r| - 1])
    decreases |s|
  {
    if |s| > 0 && IsSpace(s[|s| - 1]) then DropTrailingSpaces(s[..|s| - 1]) else s
  }

  /** What is dropped at the end is whitespace, and what is left is the start of the text. */
  lemma {:induction false} DropTrailingPrefix(s: string)
    ensures var r := DropTrailingSpaces(s); r == s[..|r|] && AllSpace(s[|r|..])
    decreases |s|
  {
    if |s| > 0 && IsSpace(s[|s| - 1]) {
      var t := s[..|s| - 1];
      DropTrailingPrefix(t);
      var r := DropTrailingSpaces(s);
      assert t[..|r|] == s[..|r|];
      assert forall k :: |r| <= k < |s| - 1 ==> s[k] == t[k];
    }
  }

  /**
   * `s.replace(/(^\s+|\s+$)/g, '')`: without the `m` flag `^` and `$` anchor at
   * the ends of the whole string, so only the leading and the trailing run go.
   */
  function Trim(s: string): (r: string)
    ensures |r| <= |s|
  {
    DropTrailingSpaces(DropSpaces(s))
  }

  /** Trimming keeps the middle of the text: only whitespace goes. */
  lemma TrimSpec(s: string)
    ensures var r := Trim(s); var i := |s| - |DropSpaces(s)|;
      && i + |r| <= |s| && r == s[i..i + |r|]
      && AllSpace(s[..i]) && AllSpace(s[i + |r|..])
  {
    var a := DropSpaces(s);
    var b := DropTrailingSpaces(a);
    assert Trim(s) == b;
    var i := |s| - |a|;
    DropSpacesSuffix(s);
    DropTrailingPrefix(a);
    SuffixPrefix(s, a, b);
    assert AllSpace(s[..i]);
    AllSpaceSame(a[|b|..], s[i + |b|..]);
  }

  lemma AllSpaceSame(x: string, y: string)
    requires AllSpace(x) && x == y
    ensures AllSpace(y)
  {
  }

  /** The trimmed text neither starts nor ends with whitespace. */
  lemma TrimEnds(s: string)
    ensures var r := Trim(s); |r| > 0 ==> !IsSpace(r[0]) && !IsSpace(r[|r| - 1])
  {
    var a := DropSpaces(s);
    var b := DropTrailingSpaces(a);
    DropTrailingPrefix(a);
    if |b| > 0 {
      assert b[0] == a[0];
    }
  }

  /** A prefix `b` of a suffix `a` of `s` sits in `s` where `a` starts, and `a`'s rest follows it. */
  lemma SuffixPrefix<T>(s: seq<T>, a: seq<T>, b: seq<T>)
    requires |a| <= |s| && a == s[|s| - |a|..]
    requires |b| <= |a| && b == a[..|b|]
    ensures s[|s| - |a|..|s| - |a| + |b|] == b
    ensures s[|s| - |a| + |b|..] == a[|b|..]
  {
  }

  /** `s.split(/\s+/g)`: the pieces between maximal runs of whitespace. */
  function SplitSpaces(s: string): (r: seq<string>)
    ensures |r| >= 1
    decreases |s|
  {
    if |s| == 0 then [""]
    else if IsSpace(s[0]) then [""] + SplitSpaces(DropSpaces(s))
    else
      var rest := SplitSpaces(s[1..]);
      [[s[0]] + rest[0]] + rest[1..]
  }

  /** No piece of a whitespace split contains whitespace. */
  lemma {:induction false} SplitSpacesWords(s: string)
    ensures forall k, j :: 0 <= k < |SplitSpaces(s)| && 0 <= j < |SplitSpaces(s)[k]| ==> !IsSpace(SplitSpaces(s)[k][j])
    decreases |s|
  {
    if |s| > 0 {
      if IsSpace(s[0]) {
        SplitSpacesWords(DropSpaces(s));
        var rest := SplitSpaces(DropSpaces(s));
        forall k, j | 0 <= k < |SplitSpaces(s)| && 0 <= j < |SplitSpaces(s)[k]| ensures !IsSpace(SplitSpaces(s)[k][j]) {
          assert SplitSpaces(s)[k] == rest[k - 1];
        }
      } else {
        SplitSpacesWords(s[1..]);
        var rest := SplitSpaces(s[1..]);
        forall k, j | 0 <= k < |SplitSpaces(s)| && 0 <= j < |SplitSpaces(s)[k]| ensures !IsSpace(SplitSpaces(s)[k][j]) {
          if k == 0 {
            if j > 0 { assert SplitSpaces(s)[0][j] == rest[0][j - 1]; }
          } else {
            assert SplitSpaces(s)[k] == rest[k];
          }
        }
      }
    }
  }

  /** Decimal digits of a number, as `String(n)` renders a non-negative integer. */
  function NatToString(n: nat): (r: string)
    ensures |r| >= 1
    ensures forall i :: 0 <= i < |r| ==> '0' <= r[i] <= '9'
    decreases n
  {
    var d := ['0' + (n % 10) as char];
    if n < 10 then d else NatToString(n / 10) + d
  }

  /**
   * The replacement text of `String.prototype.replace` with a string pattern:
   * `$$` is `$`, `$&` the matched text, `` $` `` the text before it, `$'` the
   * text after it; every other `$` (there are no capture groups) is literal.
   */
  function Substitute(rep: string, matched: string, before: string, after: string): string
    decreases |rep|
  {
    if |rep| == 0 then ""
    else if rep[0] == '$' && |rep| >= 2 && rep[1] == '$' then "$" + Substitute(rep[2..], matched, before, after)
    else if rep[0] == '$' && |rep| >= 2 && rep[1] == '&' then matched + Substitute(rep[2..], matched, before, after)
    else if rep[0] == '$' && |rep| >= 2 && rep[1] == '`' then before + Substitute(rep[2..], matched, before, after)
    else if rep[0] == '$' && |rep| >= 2 && rep[1] == '\'' then after + Substitute(rep[2..], matched, before, after)
    else [rep[0]] + Substitute(rep[1..], matched, before, after)
  }

  /** A replacement without `$` is inserted literally. */
  lemma {:induction false} SubstituteLiteral(rep: string, matched: string, before: string, after: string)
    requires '$' !in rep
    ensures Substitute(rep, matched, before, after) == rep
    decreases |rep|
  {
    if |rep| > 0 {
      SubstituteLiteral(rep[1..], matched, before, after);
      assert [rep[0]] + rep[1..] == rep;
    }
  }

  /** `s.replace(pat, rep)` with a string `pat`: only the first occurrence is replaced. */
  function ReplaceFirst(s: string, pat: string, rep: string): string
  {
    var i := IndexOf(s, pat, 0);
    if i == -1 then s
    else s[..i] + Substitute(rep, pat, s[..i], s[i + |pat|..]) + s[i + |pat|..]
  }

  /** When `pat` first occurs at `i`, a `$`-free replacement takes exactly its place there. */
  lemma ReplaceFirstAt(s: string, pat: string, rep: string, i: nat)
    requires OccursAt(s, pat, i)
    requires forall k :: 0 <= k < i ==> !OccursAt(s, pat, k)
    requires '$' !in rep
    ensures ReplaceFirst(s, pat, rep) == s[..i] + rep + s[i + |pat|..]
  {
    assert IndexOf(s, pat, 0) == i;
    SubstituteLiteral(rep, pat, s[..i], s[i + |pat|..]);
  }

  /** Without an occurrence of `pat`, nothing is replaced. */
  lemma ReplaceFirstAbsent(s: string, pat: string, rep: string)
    requires forall k :: 0 <= k <= |s| ==> !OccursAt(s, pat, k)
    ensures ReplaceFirst(s, pat, rep) == s
  {
  }

  /** `s.replace(/c/g, rep)` for a single character `c`: every occurrence is replaced. */
  function ReplaceAllChar(s: string, c: char, rep: string): (r: string)
    ensures c !in rep ==> c !in r
    ensures c !in s ==> r == s
    decreases |s|
  {
    if |s| == 0 then ""
    else (if s[0] == c then rep else [s[0]]) + ReplaceAllChar(s[1..], c, rep)
  }

  /** The `g` flag replaces every occurrence independently, so the replacement distributes over concatenation. */
  lemma {:induction false} ReplaceAllCharAppend(a: string, b: string, c: char, rep: string)
    ensures ReplaceAllChar(a + b, c, rep) == ReplaceAllChar(a, c, rep) + ReplaceAllChar(b, c, rep)
    decreases |a|
  {
    if |a| == 0 {
      assert a + b == b;
    } else {
      assert (a + b)[1..] == a[1..] + b;
      ReplaceAllCharAppend(a[1..], b, c, rep);
    }
  }

  /** A single character becomes the replacement when it is `c`, and stays otherwise. */
  lemma ReplaceAllCharOne(x: char, c: char, rep: string)
    ensures ReplaceAllChar([x], c, rep) == if x == c then rep else [x]
  {
    assert [x][1..] == [];
  }

  /** Every occurrence of `c` is replaced by `rep` and every other character kept. */
  lemma {:induction false} ReplaceAllCharLength(s: string, c: char, rep: string)
    ensures |ReplaceAllChar(s, c, rep)| == |s| - Count(s, c) + Count(s, c) * |rep|
    decreases |s|
  {
    if |s| > 0 {
      ReplaceAllCharLength(s[1..], c, rep);
      ReplaceAllCharStep(s, c, rep);
    }
  }

  /** One step of the length count: the first character contributes `|rep|` when replaced and 1 otherwise. */
  lemma ReplaceAllCharStep(s: string, c: char, rep: string)
    requires |s| > 0
    requires |ReplaceAllChar(s[1..], c, rep)| == |s[1..]| - Count(s[1..], c) + Count(s[1..], c) * |rep|
    ensures |ReplaceAllChar(s, c, rep)| == |s| - Count(s, c) + Count(s, c) * |rep|
  {
    var r, rest := ReplaceAllChar(s, c, rep), ReplaceAllChar(s[1..], c, rep);
    var k := Count(s[1..], c);
    if s[0] == c {
      assert r == rep + rest;
      assert Count(s, c) == k + 1;
      ReplacedArithmetic(|s[1..]|, k, |rep|, |rest|);
    } else {
      assert r == [s[0]] + rest;
      assert Count(s, c) == k;
    }
  }

  /** The arithmetic of one replaced character: `k` more replacements, each `n` long. */
  lemma ReplacedArithmetic(len: int, k: int, n: int, m: int)
    requires m == len - k + k * n
    ensures n + m == (len + 1) - (k + 1) + (k + 1) * n
  {
    assert (k + 1) * n == k * n + n;
  }

  /** One occurrence of `c` between two stretches without it: only that occurrence is replaced. */
  lemma ReplaceAllCharBetween(a: string, b: string, c: char, rep: string)
    requires c !in a && c !in b
    ensures ReplaceAllChar(a + [c] + b, c, rep) == a + rep + b
  {
    ReplaceAllCharAppend(a, [c] + b, c, rep);
    ReplaceAllCharAppend([c], b, c, rep);
    ReplaceAllCharOne(c, c, rep);
    assert a + [c] + b == a + ([c] + b);
  }

  /** The first character survives when it is not the one replaced. */
  lemma ReplaceAllCharHead(s: string, c: char, rep: string)
    requires |s| > 0 && s[0] != c
    ensures |ReplaceAllChar(s, c, rep)| > 0 && ReplaceAllChar(s, c, rep)[0] == s[0]
  {
  }

  // ---------------------------------------------------------------------------
  // Length as JavaScript measures it

  /** The UTF-16 code units of one character: two beyond the Basic Multilingual Plane. */
  function CodeUnits(x: char): nat {
    if x as int > 0xFFFF then 2 else 1
  }

  /** `s.length`, which counts UTF-16 code units rather than characters. */
  function Utf16Length(s: string): (n: nat)
    ensures |s| <= n <= 2 * |s|
    decreases |s|
  {
    if |s| == 0 then 0 else CodeUnits(s[0]) + Utf16Length(s[1..])
  }

  lemma {:induction false} Utf16Append(a: string, b: string)
    ensures Utf16Length(a + b) == Utf16Length(a) + Utf16Length(b)
    decreases |a|
  {
    if |a| == 0 {
      assert a + b == b;
    } else {
      assert (a + b)[1..] == a[1..] + b;
      Utf16Append(a[1..], b);
    }
  }

  /** Text within the Basic Multilingual Plane has one code unit per character. */
  lemma {:induction false} Utf16Plane(s: string)
    requires forall i :: 0 <= i < |s| ==> s[i] as int <= 0xFFFF
    ensures Utf16Length(s) == |s|
    decreases |s|
  {
    if |s| > 0 {
      Utf16Plane(s[1..]);
    }
  }

  /** An emoji is one character but two code units. */
  lemma Utf16Emoji()
    ensures |"\U{1F600}"| == 1 && Utf16Length("\U{1F600}") == 2
  {
    assert "\U{1F600}"[1..] == "";
  }
}
