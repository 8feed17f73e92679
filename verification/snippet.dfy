/**
 * The post summary the build script derives from a page's Markdown
 * (`createSnippet` in build.js): the first paragraph, with every inline link
 * replaced by its text, split into words at runs of spaces and line feeds;
 * the words are taken, each after one space, while the summary stays shorter
 * than the configured maximum, and the configured suffix marks a summary that
 * left words out.
 */
module Snippet {
  import opened Wrappers
  import opened Text
  import ImageScan

  /** The site's summary settings. */
  const MaxLength: nat := 280
  const Suffix: string := "..."

  // ---------------------------------------------------------------------------
  // The first paragraph

  /** The text before the first blank line (`split("\n\n")[0]`). */
  function FirstParagraph(contents: string): string {
    var i := IndexOf(contents, "\n\n", 0);
    if i == -1 then contents else contents[..i]
  }

  /** The first paragraph is a prefix holding no blank line, and it is all of the text or is followed by one. */
  lemma ParagraphPrefix(contents: string)
    ensures var para := FirstParagraph(contents);
      && StartsWith(contents, para)
      && (forall k :: 0 <= k <= |para| ==> !OccursAt(para, "\n\n", k))
      && (para == contents || OccursAt(contents, "\n\n", |para|))
  {
    var para := FirstParagraph(contents);
    forall k | 0 <= k <= |para| ensures !OccursAt(para, "\n\n", k) {
      if OccursAt(para, "\n\n", k) {
        assert contents[k..k + 2] == para[k..k + 2];
        assert OccursAt(contents, "\n\n", k);
      }
    }
  }

  // ---------------------------------------------------------------------------
  // Links: the pattern /\[(.*)\]\(.*\)/g replaced by "$1"

  /** The last `c` in `s[lo..hi]`, or -1. */
  function LastIndexIn(s: string, c: char, lo: nat, hi: nat): (r: int)
    requires lo <= hi <= |s|
    ensures r == -1 || (lo <= r < hi && s[r] == c)
    ensures r == -1 ==> forall k :: lo <= k < hi ==> s[k] != c
    ensures r != -1 ==> forall k :: r < k < hi ==> s[k] != c
    decreases hi - lo
  {
    if hi == lo then -1 else if s[hi - 1] == c then hi - 1 else LastIndexIn(s, c, lo, hi - 1)
  }

  /** The `](` between a link's text and its target. */
  predicate MidAt(s: string, q: nat) {
    q + 1 < |s| && s[q] == ']' && s[q + 1] == '('
  }

  /** The last `](` starting in `s[lo..hi]`, or -1. */
  function LastMid(s: string, lo: nat, hi: nat): (r: int)
    requires lo <= hi <= |s|
    ensures r == -1 || (lo <= r < hi && MidAt(s, r))
    ensures r == -1 ==> forall k :: lo <= k < hi ==> !MidAt(s, k)
    ensures r != -1 ==> forall k :: r < k < hi ==> !MidAt(s, k)
    decreases hi - lo
  {
    if hi == lo then -1 else if MidAt(s, hi - 1) then hi - 1 else LastMid(s, lo, hi - 1)
  }

  /** A link match starting at some `[`: its text ends at `mid`, the match ends before `end`. */
  datatype Link = Link(mid: nat, end: nat)

  /**
   * The match of the link pattern at `p`, as the backtracking matcher finds
   * it: both `.*` groups are greedy and stop at the line's end, so the match
   * ends at the last `)` of the line and the text runs to the last `](` that
   * leaves room for it.
   */
  function LinkAt(s: string, p: nat): (r: Option<Link>)
    requires p < |s|
    ensures r.Some? ==> p + 1 <= r.value.mid && r.value.mid + 3 <= r.value.end <= |s|
  {
    if s[p] != '[' then None
    else
      var le := ImageScan.LineEnd(s, p + 1);
      var e := LastIndexIn(s, ')', p + 1, le);
      if e < p + 3 then None
      else
        var q := LastMid(s, p + 1, e - 1);
        if q == -1 then None else Some(Link(q, e + 1))
  }

  /** Whether `[`…`](`…`)` with its `](` at `q` and its `)` at `e` fits the pattern at `p`. */
  predicate LinkShape(s: string, p: nat, q: nat, e: nat) {
    p < q && q + 2 <= e < |s| && s[p] == '[' && MidAt(s, q) && s[e] == ')' && ImageScan.Clear(s, p + 1, e + 1)
  }

  lemma LineEndAt(s: string, i: nat, j: nat)
    requires i <= j <= |s| && ImageScan.Clear(s, i, j)
    requires j == |s| || ImageScan.IsLineTerminator(s[j])
    ensures ImageScan.LineEnd(s, i) == j
  {
    ImageScan.LineEndReaches(s, i, j);
    ImageScan.LineEndClear(s, i);
  }

  /** A match has the link's shape, and no longer one starting at `p` does (greedy groups). */
  lemma LinkAtMatches(s: string, p: nat)
    requires p < |s| && LinkAt(s, p).Some?
    ensures var l := LinkAt(s, p).value;
      && LinkShape(s, p, l.mid, l.end - 1)
      && forall q: nat, e: nat :: LinkShape(s, p, q, e) ==> e < l.end && (e == l.end - 1 ==> q <= l.mid)
  {
    var l := LinkAt(s, p).value;
    var le := ImageScan.LineEnd(s, p + 1);
    ImageScan.LineEndClear(s, p + 1);
    forall q: nat, e: nat | LinkShape(s, p, q, e) ensures e < l.end && (e == l.end - 1 ==> q <= l.mid) {
      ImageScan.LineEndReaches(s, p + 1, e + 1);
    }
  }

  /** No match at a `[` means nothing of the link's shape starts there. */
  lemma LinkAtNone(s: string, p: nat)
    requires p < |s| && LinkAt(s, p).None?
    ensures forall q: nat, e: nat :: !LinkShape(s, p, q, e)
  {
    forall q: nat, e: nat | LinkShape(s, p, q, e) ensures false {
      ImageScan.LineEndReaches(s, p + 1, e + 1);
    }
  }

  /** The text with every link match replaced by its text, scanning from `i`. */
  function StripLinks(s: string, i: nat): (r: string)
    requires i <= |s|
    ensures |r| <= |s| - i
    decreases |s| - i
  {
    if i == |s| then ""
    else match LinkAt(s, i)
      case Some(l) => s[i + 1..l.mid] + StripLinks(s, l.end)
      case None => [s[i]] + StripLinks(s, i + 1)
  }

  /** Text without `[` is left as it is. */
  lemma {:induction false} NoBracketKept(s: string, i: nat)
    requires i <= |s| && '[' !in s[i..]
    ensures StripLinks(s, i) == s[i..]
    decreases |s| - i
  {
    if i < |s| {
      assert s[i] != '[';
      assert s[i + 1..] == s[i..][1..];
      NoBracketKept(s, i + 1);
      assert s[i..] == [s[i]] + s[i + 1..];
    }
  }

  /**
   * A link alone on its line (text and target on one line, a target without
   * `]` or `)`) is replaced by its text; the lines after it stay as they are
   * when they hold no `[`.
   */
  lemma LinkReplaced(t: string, u: string, post: string)
    requires forall k :: 0 <= k < |t| ==> !ImageScan.IsLineTerminator(t[k])
    requires forall k :: 0 <= k < |u| ==> !ImageScan.IsLineTerminator(u[k]) && u[k] != ']' && u[k] != ')'
    requires post == "" || ImageScan.IsLineTerminator(post[0])
    requires '[' !in post
    ensures StripLinks("[" + t + "](" + u + ")" + post, 0) == t + post
  {
    var link := "[" + t + "](" + u + ")";
    var s := link + post;
    var n := |link|;
    var q := 1 + |t|;
    LinkLineFacts(t, u, post);
    WholeLineLink(s, n, q);
    assert StripLinks(s, 0) == s[1..q] + StripLinks(s, n);
    NoBracketKept(s, n);
  }

  lemma LinkLineFacts(t: string, u: string, post: string)
    requires forall k :: 0 <= k < |t| ==> !ImageScan.IsLineTerminator(t[k])
    requires forall k :: 0 <= k < |u| ==> !ImageScan.IsLineTerminator(u[k]) && u[k] != ']' && u[k] != ')'
    requires post == "" || ImageScan.IsLineTerminator(post[0])
    ensures var s := "[" + t + "](" + u + ")" + post; var n := |t| + |u| + 4; var q := 1 + |t|;
      && n <= |s| && s[0] == '[' && ImageScan.Clear(s, 1, n) && (n == |s| || ImageScan.IsLineTerminator(s[n]))
      && s[n - 1] == ')' && MidAt(s, q) && q + 3 <= n
      && (forall k :: q < k < n - 2 ==> !MidAt(s, k))
      && s[1..q] == t && s[n..] == post
  {
    var s := "[" + t + "](" + u + ")" + post;
    var n := |t| + |u| + 4;
    var q := 1 + |t|;
    assert forall k :: 1 <= k < q ==> s[k] == t[k - 1];
    assert forall k :: q + 2 <= k < n - 1 ==> s[k] == u[k - q - 2];
    assert n < |s| ==> s[n] == post[0];
    assert s == "[" + t + ("](" + u + ")") + post;
  }

  /** A `[` whose line ends with `)`, with its last `](` at `q`, is one link match. */
  lemma WholeLineLink(s: string, n: nat, q: nat)
    requires 1 <= q && q + 3 <= n <= |s|
    requires s[0] == '[' && ImageScan.Clear(s, 1, n) && (n == |s| || ImageScan.IsLineTerminator(s[n]))
    requires s[n - 1] == ')' && MidAt(s, q)
    requires forall k :: q < k < n - 2 ==> !MidAt(s, k)
    ensures LinkAt(s, 0) == Some(Link(q, n))
  {
    LineEndAt(s, 1, n);
    assert LastIndexIn(s, ')', 1, n) == n - 1;
    assert LastMid(s, 1, n - 2) == q;
  }

  // ---------------------------------------------------------------------------
  // Words: the text split at runs of spaces and line feeds (/[ \n]+/)

  predicate IsGap(c: char) {
    c == ' ' || c == '\n'
  }

  /** The text after its leading run of gap characters. */
  function DropGaps(s: string): (r: string)
    ensures |r| <= |s|
    ensures r == "" || !IsGap(r[0])
    decreases |s|
  {
    if |s| > 0 && IsGap(s[0]) then DropGaps(s[1..]) else s
  }

  /** `s.split(/[ \n]+/)`: a leading or trailing run gives an empty first or last word. */
  function SplitGaps(s: string): (r: seq<string>)
    ensures |r| >= 1
    decreases |s|
  {
    if |s| == 0 then [""]
    else if IsGap(s[0]) then [""] + SplitGaps(DropGaps(s))
    else
      var rest := SplitGaps(s[1..]);
      [[s[0]] + rest[0]] + rest[1..]
  }

  predicate GapFree(w: string) {
    forall k :: 0 <= k < |w| ==> !IsGap(w[k])
  }

  /** No word holds a gap character. */
  lemma {:induction false} SplitGapsWords(s: string)
    ensures forall i :: 0 <= i < |SplitGaps(s)| ==> GapFree(SplitGaps(s)[i])
    decreases |s|
  {
    if |s| > 0 {
      if IsGap(s[0]) {
        SplitGapsWords(DropGaps(s));
      } else {
        SplitGapsWords(s[1..]);
      }
    }
  }

  /** The words, each after one space, with empty words skipped. */
  function Spaced(ws: seq<string>): (r: string)
    ensures r == "" || r[0] == ' '
    decreases |ws|
  {
    if |ws| == 0 then ""
    else (if ws[0] == "" then "" else " " + ws[0]) + Spaced(ws[1..])
  }

  /** The non-empty words, in order. */
  function NonEmpty(ws: seq<string>): seq<string>
    decreases |ws|
  {
    if |ws| == 0 then [] else (if ws[0] == "" then [] else [ws[0]]) + NonEmpty(ws[1..])
  }

  /** Adding a word at the end adds it after one space, unless it is empty. */
  lemma {:induction false} SpacedSnoc(ws: seq<string>, w: string)
    ensures Spaced(ws + [w]) == Spaced(ws) + (if w == "" then "" else " " + w)
    decreases |ws|
  {
    if |ws| == 0 {
      assert ws + [w] == [w];
      assert [w][1..] == [];
    } else {
      assert (ws + [w])[1..] == ws[1..] + [w];
      SpacedSnoc(ws[1..], w);
    }
  }

  /** A word followed by a gap (or nothing) is the first word. */
  lemma {:induction false} WordThen(w: string, rest: string)
    requires GapFree(w)
    requires rest == "" || IsGap(rest[0])
    ensures SplitGaps(w + rest) == [w + SplitGaps(rest)[0]] + SplitGaps(rest)[1..]
    decreases |w|
  {
    var S := SplitGaps(rest);
    if |w| == 0 {
      assert w + rest == rest;
      assert w + S[0] == S[0];
      assert S == [S[0]] + S[1..];
    } else {
      assert (w + rest)[0] == w[0] && !IsGap(w[0]);
      assert (w + rest)[1..] == w[1..] + rest;
      WordThen(w[1..], rest);
      assert [w[0]] + (w[1..] + S[0]) == w + S[0];
    }
  }

  /** One space before a non-empty word and a gap-led rest opens an empty word, then the word starts the rest's first. */
  lemma SpaceWordThen(w: string, rest: string)
    requires w != "" && GapFree(w)
    requires rest == "" || IsGap(rest[0])
    ensures SplitGaps(" " + w + rest) == [""] + ([w + SplitGaps(rest)[0]] + SplitGaps(rest)[1..])
  {
    var s := " " + w + rest;
    assert s[0] == ' ' && s[1..] == w + rest;
    assert (w + rest)[0] == w[0] && !IsGap(w[0]);
    assert DropGaps(s) == w + rest;
    WordThen(w, rest);
  }

  lemma SpacedCons(ws: seq<string>)
    requires |ws| > 0
    ensures Spaced(ws) == (if ws[0] == "" then "" else " " + ws[0]) + Spaced(ws[1..])
    ensures NonEmpty(ws) == (if ws[0] == "" then [] else [ws[0]]) + NonEmpty(ws[1..])
  {
  }

  /** The word joins the empty first word of the rest's split. */
  lemma JoinFirst(w: string, split: seq<string>, words: seq<string>)
    requires split == [""] + words
    ensures [w + split[0]] + split[1..] == [w] + words
  {
    assert split[1..] == words;
    assert w + "" == w;
  }

  /** Splitting spaced words gives them back, after the empty word the leading space makes. */
  lemma {:induction false} SpacedWords(ws: seq<string>)
    requires forall i :: 0 <= i < |ws| ==> GapFree(ws[i])
    ensures SplitGaps(Spaced(ws)) == [""] + NonEmpty(ws)
    decreases |ws|
  {
    if |ws| > 0 {
      var rest := Spaced(ws[1..]);
      var words := NonEmpty(ws[1..]);
      SpacedWords(ws[1..]);
      SpacedCons(ws);
      if ws[0] != "" {
        assert GapFree(ws[0]);
        SpaceWordThen(ws[0], rest);
        JoinFirst(ws[0], SplitGaps(rest), words);
        assert " " + ws[0] + rest == (" " + ws[0]) + rest;
      } else {
        assert "" + rest == rest;
        assert [] + words == words;
      }
    }
  }

  // ---------------------------------------------------------------------------
  // The summary

  /** The words the summary is drawn from. */
  function SnippetWords(contents: string): seq<string> {
    SplitGaps(StripLinks(FirstParagraph(contents), 0))
  }

  /** Word `i`, after the words before it and one space, stays under `maxLength` code units. */
  predicate Fits(ws: seq<string>, i: nat, maxLength: nat)
    requires i < |ws|
  {
    Utf16Length(Spaced(ws[..i])) + Utf16Length(ws[i]) + 1 < maxLength
  }

  /** Taking word `i` adds it after one space, unless it is empty; when it fits, the summary stays under `maxLength`. */
  lemma TakeWord(ws: seq<string>, i: nat, maxLength: nat)
    requires i < |ws|
    ensures Spaced(ws[..i + 1]) == Spaced(ws[..i]) + (if ws[i] == "" then "" else " " + ws[i])
    ensures Fits(ws, i, maxLength) ==> Utf16Length(Spaced(ws[..i + 1])) < maxLength
  {
    assert ws[..i + 1] == ws[..i] + [ws[i]];
    SpacedSnoc(ws[..i], ws[i]);
    if ws[i] != "" {
      Utf16Append(Spaced(ws[..i]), " " + ws[i]);
      Utf16Append(" ", ws[i]);
      assert Utf16Length(" ") == 1 by {
        assert " "[1..] == "";
      }
    } else {
      assert Spaced(ws[..i]) + "" == Spaced(ws[..i]);
    }
  }

  /**
   * The summary: words are taken in order while the summary so far, the
   * next word and one space stay under `maxLength`, lengths counted in UTF-16
   * code units as JavaScript counts them; the suffix follows when words are
   * left over, and a blank line ends the summary.
   */
  method CreateSnippet(contents: string, maxLength: nat, suffix: string) returns (snippet: string, used: nat)
    ensures used <= |SnippetWords(contents)|
    ensures var bits := SnippetWords(contents); var body := Spaced(bits[..used]);
      && snippet == body + (if used < |bits| then suffix else "") + "\n\n"
      && (forall i :: 0 <= i < used ==> Fits(bits, i, maxLength))
      && (used == 0 || Utf16Length(body) < maxLength)
      && (used < |bits| ==> Utf16Length(body) + Utf16Length(bits[used]) + 1 >= maxLength)
  {
    var bits := SnippetWords(contents);
    var text;
    text, used := TakeWords(bits, maxLength);
    if used < |bits| {
      text := text + suffix;
    }
    snippet := text + "\n\n";
  }

  /** The loop of the summary: the words taken, spaced, and how many there are. */
  method TakeWords(bits: seq<string>, maxLength: nat) returns (text: string, used: nat)
    ensures used <= |bits| && text == Spaced(bits[..used])
    ensures forall i :: 0 <= i < used ==> Fits(bits, i, maxLength)
    ensures used == 0 || Utf16Length(text) < maxLength
    ensures used < |bits| ==> Utf16Length(text) + Utf16Length(bits[used]) + 1 >= maxLength
  {
    text := "";
    used := 0;
    while used < |bits| && Utf16Length(text) + Utf16Length(bits[used]) + 1 < maxLength
      invariant used <= |bits|
      invariant text == Spaced(bits[..used])
      invariant forall i :: 0 <= i < used ==> Fits(bits, i, maxLength)
      invariant used == 0 || Utf16Length(text) < maxLength
    {
      assert Fits(bits, used, maxLength);
      TakeWord(bits, used, maxLength);
      if |bits[used]| > 0 {
        text := text + " " + bits[used];
      }
      used := used + 1;
    }
  }

  /** The summary's words are the non-empty words it took, in order: nothing is cut inside a word. */
  lemma SnippetKeepsWords(contents: string, used: nat)
    requires used <= |SnippetWords(contents)|
    ensures var bits := SnippetWords(contents);
      SplitGaps(Spaced(bits[..used])) == [""] + NonEmpty(bits[..used])
  {
    var bits := SnippetWords(contents);
    SplitGapsWords(StripLinks(FirstParagraph(contents), 0));
    SpacedWords(bits[..used]);
  }
}
