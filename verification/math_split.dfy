/**
 * The math-delimiter splitter of the blog's page script: `findEndOfMath`
 * walks the text after a left delimiter, keeping track of brace nesting and
 * skipping the character after each backslash, until the right delimiter
 * occurs at brace level zero or below; `splitAtDelimiters` cuts text pieces
 * into alternating text and math pieces; `splitWithDelimiters` applies a list
 * of delimiter pairs in order, starting from the whole text.
 */
module MathSplit {
  import opened Wrappers
  import opened Text

  // ---------------------------------------------------------------------------
  // The end-of-math walk

  /** The next position the walk inspects: a backslash makes it skip one character. */
  function Step(t: string, i: nat): nat {
    if i < |t| && t[i] == '\\' then i + 2 else i + 1
  }

  /** The brace level after inspecting position `i`. */
  function LevelStep(t: string, i: nat, level: int): int {
    if i < |t| && t[i] == '\\' then level
    else if i < |t| && t[i] == '{' then level + 1
    else if i < |t| && t[i] == '}' then level - 1
    else level
  }

  /** The walk would stop at `i`: the delimiter occurs there and no brace is open. */
  predicate Stops(d: string, t: string, i: nat, level: int) {
    i < |t| && level <= 0 && OccursAt(t, d, i)
  }

  /**
   * `findEndOfMath(d, t, i)` started with brace level `level` (the page script
   * always starts at 0): the first position the walk stops at, or -1.
   */
  function FindEnd(d: string, t: string, i: nat, level: int): (r: int)
    ensures r == -1 || (i <= r < |t| && OccursAt(t, d, r))
    decreases |t| - i
  {
    if |t| <= i then -1
    else if level <= 0 && OccursAt(t, d, i) then i
    else FindEnd(d, t, Step(t, i), LevelStep(t, i, level))
  }

  /** The walk that starts at `i` inspects position `k`, ignoring where it stops. */
  predicate OnWalk(t: string, i: nat, k: nat)
    decreases |t| - i
  {
    i == k || (i < k && i < |t| && OnWalk(t, Step(t, i), k))
  }

  /** The brace level the walk from `i` has when it reaches `k`. */
  function LevelAt(t: string, i: nat, level: int, k: nat): int
    requires OnWalk(t, i, k)
    decreases |t| - i
  {
    if i == k then level else LevelAt(t, Step(t, i), LevelStep(t, i, level), k)
  }

  /** A found end is a position of the walk where the delimiter occurs with no brace open. */
  lemma {:induction false} FindEndStops(d: string, t: string, i: nat, level: int)
    requires FindEnd(d, t, i, level) != -1
    ensures var r := FindEnd(d, t, i, level);
      OnWalk(t, i, r) && Stops(d, t, r, LevelAt(t, i, level, r))
    decreases |t| - i
  {
    if !(level <= 0 && OccursAt(t, d, i)) {
      FindEndStops(d, t, Step(t, i), LevelStep(t, i, level));
    }
  }

  /** The walk stops at the first such position: -1 means there is none. */
  lemma {:induction false} FindEndFirst(d: string, t: string, i: nat, level: int, k: nat)
    requires OnWalk(t, i, k) && Stops(d, t, k, LevelAt(t, i, level, k))
    ensures 0 <= FindEnd(d, t, i, level) <= k
    decreases |t| - i
  {
    if i != k && !(level <= 0 && OccursAt(t, d, i)) {
      FindEndFirst(d, t, Step(t, i), LevelStep(t, i, level), k);
    }
  }

  /** The walk only moves forward. */
  lemma {:induction false} OnWalkAfter(t: string, i: nat, k: nat)
    requires OnWalk(t, i, k)
    ensures i <= k
  {
  }

  /** The character after a backslash the walk inspects is never inspected itself. */
  lemma {:induction false} EscapedSkipped(t: string, i: nat, k: nat)
    requires OnWalk(t, i, k) && k < |t| && t[k] == '\\'
    ensures !OnWalk(t, i, k + 1)
    decreases |t| - i
  {
    if i < k {
      EscapedSkipped(t, Step(t, i), k);
      assert Step(t, i) <= k by { OnWalkAfter(t, Step(t, i), k); }
    } else {
      assert Step(t, i) == k + 2;
    }
  }

  /** So an escaped delimiter is never returned as the end of the math. */
  lemma EscapedNeverEnd(d: string, t: string, i: nat, level: int, k: nat)
    requires OnWalk(t, i, k) && k < |t| && t[k] == '\\'
    ensures FindEnd(d, t, i, level) != k + 1
  {
    EscapedSkipped(t, i, k);
    if FindEnd(d, t, i, level) != -1 {
      FindEndStops(d, t, i, level);
    }
  }

  // ---------------------------------------------------------------------------
  // Splitting text pieces

  /** An entry of the split: text, or math with its content, its delimited source text and its display flag. */
  datatype Piece =
    | Text(data: string)
    | Math(data: string, rawData: string, display: bool)

  /** The source text a piece stands for. */
  function Source(p: Piece): string {
    if p.Text? then p.data else p.rawData
  }

  /** The text a list of pieces stands for. */
  function Flatten(ps: seq<Piece>): string
    decreases |ps|
  {
    if |ps| == 0 then "" else Source(ps[0]) + Flatten(ps[1..])
  }

  lemma FlattenCons(p: Piece, ps: seq<Piece>)
    ensures Flatten([p] + ps) == Source(p) + Flatten(ps)
  {
    assert ([p] + ps)[1..] == ps;
  }

  lemma {:induction false} FlattenAppend(a: seq<Piece>, b: seq<Piece>)
    ensures Flatten(a + b) == Flatten(a) + Flatten(b)
    decreases |a|
  {
    if |a| == 0 {
      assert a + b == b;
    } else {
      var rest := a[1..];
      FlattenAppend(rest, b);
      assert a + b == [a[0]] + (rest + b);
      assert a == [a[0]] + rest;
      FlattenCons(a[0], rest + b);
      FlattenCons(a[0], rest);
    }
  }

  /**
   * The loop of `splitAtDelimiters` over one text, from position `cur`: looking
   * for a left delimiter, or (after one was found at `cur`) for the matching
   * right delimiter. A missing delimiter ends the loop, and the rest of the
   * text becomes the last text piece. Both delimiters empty would never end,
   * and is excluded.
   */
  function Scan(t: string, left: string, right: string, display: bool, cur: nat, lookingForLeft: bool): (ps: seq<Piece>)
    requires cur <= |t| && |left| + |right| > 0
    requires lookingForLeft || OccursAt(t, left, cur)
    ensures |ps| >= 1 && ps[|ps| - 1].Text?
    decreases 2 * (|t| - cur) + (if lookingForLeft then 1 else 0)
  {
    if lookingForLeft then
      var next := IndexOf(t, left, cur);
      if next == -1 then [Text(t[cur..])]
      else [Text(t[cur..next])] + Scan(t, left, right, display, next, false)
    else
      var next := FindEnd(right, t, cur + |left|, 0);
      if next == -1 then [Text(t[cur..])]
      else
        [Math(t[cur + |left|..next], t[cur..next + |right|], display)]
        + Scan(t, left, right, display, next + |right|, true)
  }

  /**
   * One text split at a pair of delimiters. The source handles the first left
   * delimiter before entering its loop; that step is the loop's first
   * iteration, so the split is the loop from position 0.
   */
  function SplitText(t: string, left: string, right: string, display: bool): seq<Piece>
    requires |left| + |right| > 0
  {
    Scan(t, left, right, display, 0, true)
  }

  /** `splitAtDelimiters`: text pieces are split, every other piece is kept as it is. */
  function SplitAt(ps: seq<Piece>, left: string, right: string, display: bool): seq<Piece>
    requires |left| + |right| > 0
    decreases |ps|
  {
    if |ps| == 0 then []
    else
      (if ps[0].Text? then SplitText(ps[0].data, left, right, display) else [ps[0]])
      + SplitAt(ps[1..], left, right, display)
  }

  /** One step of the scan while looking for a left delimiter. */
  lemma ScanFromLeft(t: string, left: string, right: string, display: bool, cur: nat)
    requires cur <= |t| && |left| + |right| > 0
    ensures var next := IndexOf(t, left, cur);
      && (next == -1 ==> Scan(t, left, right, display, cur, true) == [Text(t[cur..])])
      && (next != -1 ==>
           cur <= next <= |t| && OccursAt(t, left, next)
           && Scan(t, left, right, display, cur, true) == [Text(t[cur..next])] + Scan(t, left, right, display, next, false))
  {
  }

  /** One step of the scan after a left delimiter at `cur`. */
  lemma ScanFromRight(t: string, left: string, right: string, display: bool, cur: nat)
    requires cur <= |t| && |left| + |right| > 0 && OccursAt(t, left, cur)
    ensures var next := FindEnd(right, t, cur + |left|, 0);
      && (next == -1 ==> Scan(t, left, right, display, cur, false) == [Text(t[cur..])])
      && (next != -1 ==>
           cur + |left| <= next && next + |right| <= |t| && OccursAt(t, right, next)
           && Scan(t, left, right, display, cur, false)
              == [Math(t[cur + |left|..next], t[cur..next + |right|], display)] + Scan(t, left, right, display, next + |right|, true))
  {
  }

  /** A text piece followed by pieces spelling out the rest spells out the whole. */
  lemma TextThenRest(t: string, cur: nat, next: nat, rest: seq<Piece>)
    requires cur <= next <= |t| && Flatten(rest) == t[next..]
    ensures Flatten([Text(t[cur..next])] + rest) == t[cur..]
  {
    FlattenCons(Text(t[cur..next]), rest);
    assert t[cur..] == t[cur..next] + t[next..];
  }

  /** The same for a math piece standing for `t[cur..stop]`. */
  lemma MathThenRest(t: string, cur: nat, stop: nat, data: string, display: bool, rest: seq<Piece>)
    requires cur <= stop <= |t| && Flatten(rest) == t[stop..]
    ensures Flatten([Math(data, t[cur..stop], display)] + rest) == t[cur..]
  {
    FlattenCons(Math(data, t[cur..stop], display), rest);
    assert t[cur..] == t[cur..stop] + t[stop..];
  }

  /** A list made of one piece standing for `t[cur..stop]` and pieces standing for the rest stands for `t[cur..]`. */
  lemma PieceThenRest(t: string, cur: nat, stop: nat, ps: seq<Piece>, first: Piece, rest: seq<Piece>)
    requires cur <= stop <= |t| && ps == [first] + rest
    requires Source(first) == t[cur..stop] && Flatten(rest) == t[stop..]
    ensures Flatten(ps) == t[cur..]
  {
    assert ps[1..] == rest;
    assert t[cur..] == t[cur..stop] + t[stop..];
  }

  /** A single text piece holding `t[cur..]` stands for `t[cur..]`. */
  lemma LastPiece(t: string, cur: nat, ps: seq<Piece>)
    requires cur <= |t| && ps == [Text(t[cur..])]
    ensures Flatten(ps) == t[cur..]
  {
    assert Flatten(ps[1..]) == "";
  }

  /** The scan reproduces the text from `cur` on. */
  lemma {:induction false} ScanFlatten(t: string, left: string, right: string, display: bool, cur: nat, lookingForLeft: bool)
    requires cur <= |t| && |left| + |right| > 0
    requires lookingForLeft || OccursAt(t, left, cur)
    ensures Flatten(Scan(t, left, right, display, cur, lookingForLeft)) == t[cur..]
  {
    if lookingForLeft {
      LeftFlatten(t, left, right, display, cur);
    } else {
      RightFlatten(t, left, right, display, cur);
    }
  }

  /** The scan looking for a left delimiter at `cur` reproduces `t[cur..]`. */
  lemma {:induction false} LeftFlatten(t: string, left: string, right: string, display: bool, cur: nat)
    requires cur <= |t| && |left| + |right| > 0
    ensures Flatten(Scan(t, left, right, display, cur, true)) == t[cur..]
    decreases 2 * (|t| - cur) + 1
  {
    var ps := Scan(t, left, right, display, cur, true);
    ScanFromLeft(t, left, right, display, cur);
    var next := IndexOf(t, left, cur);
    if next != -1 {
      RightFlatten(t, left, right, display, next);
      PieceThenRest(t, cur, next, ps, Text(t[cur..next]), Scan(t, left, right, display, next, false));
    } else {
      LastPiece(t, cur, ps);
    }
  }

  /** The scan after a left delimiter at `cur` reproduces `t[cur..]`. */
  lemma {:induction false} RightFlatten(t: string, left: string, right: string, display: bool, cur: nat)
    requires cur <= |t| && |left| + |right| > 0 && OccursAt(t, left, cur)
    ensures Flatten(Scan(t, left, right, display, cur, false)) == t[cur..]
    decreases 2 * (|t| - cur)
  {
    var ps := Scan(t, left, right, display, cur, false);
    ScanFromRight(t, left, right, display, cur);
    var next := FindEnd(right, t, cur + |left|, 0);
    if next != -1 {
      var stop := next + |right|;
      LeftFlatten(t, left, right, display, stop);
      PieceThenRest(t, cur, stop, ps, Math(t[cur + |left|..next], t[cur..stop], display), Scan(t, left, right, display, stop, true));
    } else {
      LastPiece(t, cur, ps);
    }
  }

  /** Concatenating the pieces' source texts gives back the text that was split. */
  lemma SplitTextFlatten(t: string, left: string, right: string, display: bool)
    requires |left| + |right| > 0
    ensures Flatten(SplitText(t, left, right, display)) == t
  {
    ScanFlatten(t, left, right, display, 0, true);
  }

  /** Every math piece is delimited by the pair: its source text is the left delimiter, its content and the right delimiter. */
  predicate Delimited(p: Piece, left: string, right: string, display: bool) {
    p.Math? ==> p.rawData == left + p.data + right && p.display == display
  }

  predicate AllDelimited(ps: seq<Piece>, left: string, right: string, display: bool) {
    forall k :: 0 <= k < |ps| ==> Delimited(ps[k], left, right, display)
  }

  lemma ConsDelimited(ps: seq<Piece>, p: Piece, rest: seq<Piece>, left: string, right: string, display: bool)
    requires ps == [p] + rest
    requires Delimited(p, left, right, display) && AllDelimited(rest, left, right, display)
    ensures AllDelimited(ps, left, right, display)
  {
    forall k | 0 <= k < |ps| ensures Delimited(ps[k], left, right, display) {
      if k > 0 { assert ps[k] == rest[k - 1]; }
    }
  }

  /** The math piece cut at `cur..stop` is delimited when the left delimiter starts there and the right one ends there. */
  lemma MathCutDelimited(t: string, left: string, right: string, display: bool, cur: nat, next: nat)
    requires OccursAt(t, left, cur) && cur + |left| <= next && OccursAt(t, right, next)
    ensures Delimited(Math(t[cur + |left|..next], t[cur..next + |right|], display), left, right, display)
  {
    assert t[cur..next + |right|] == t[cur..cur + |left|] + t[cur + |left|..next] + t[next..next + |right|];
  }

  /** A math piece cut between a left delimiter at `cur` and a right one at `next`, before delimited pieces. */
  lemma MathThenDelimited(t: string, left: string, right: string, display: bool, cur: nat, next: nat, ps: seq<Piece>, rest: seq<Piece>)
    requires OccursAt(t, left, cur) && cur + |left| <= next && OccursAt(t, right, next)
    requires ps == [Math(t[cur + |left|..next], t[cur..next + |right|], display)] + rest
    requires AllDelimited(rest, left, right, display)
    ensures AllDelimited(ps, left, right, display)
  {
    MathCutDelimited(t, left, right, display, cur, next);
    ConsDelimited(ps, Math(t[cur + |left|..next], t[cur..next + |right|], display), rest, left, right, display);
  }

  lemma {:induction false} ScanDelimited(t: string, left: string, right: string, display: bool, cur: nat, lookingForLeft: bool)
    requires cur <= |t| && |left| + |right| > 0
    requires lookingForLeft || OccursAt(t, left, cur)
    ensures AllDelimited(Scan(t, left, right, display, cur, lookingForLeft), left, right, display)
  {
    if lookingForLeft {
      LeftDelimited(t, left, right, display, cur);
    } else {
      RightDelimited(t, left, right, display, cur);
    }
  }

  lemma {:induction false} LeftDelimited(t: string, left: string, right: string, display: bool, cur: nat)
    requires cur <= |t| && |left| + |right| > 0
    ensures AllDelimited(Scan(t, left, right, display, cur, true), left, right, display)
    decreases 2 * (|t| - cur) + 1
  {
    var ps := Scan(t, left, right, display, cur, true);
    ScanFromLeft(t, left, right, display, cur);
    var next := IndexOf(t, left, cur);
    if next != -1 {
      RightDelimited(t, left, right, display, next);
      ConsDelimited(ps, Text(t[cur..next]), Scan(t, left, right, display, next, false), left, right, display);
    } else {
      assert ps[0].Text?;
    }
  }

  lemma {:induction false} RightDelimited(t: string, left: string, right: string, display: bool, cur: nat)
    requires cur <= |t| && |left| + |right| > 0 && OccursAt(t, left, cur)
    ensures AllDelimited(Scan(t, left, right, display, cur, false), left, right, display)
    decreases 2 * (|t| - cur)
  {
    var ps := Scan(t, left, right, display, cur, false);
    ScanFromRight(t, left, right, display, cur);
    var next := FindEnd(right, t, cur + |left|, 0);
    if next != -1 {
      LeftDelimited(t, left, right, display, next + |right|);
      MathThenDelimited(t, left, right, display, cur, next, ps, Scan(t, left, right, display, next + |right|, true));
    } else {
      assert ps[0].Text?;
    }
  }

  /** Every math piece of a split text is delimited by the pair and carries its display flag. */
  lemma SplitTextDelimited(t: string, left: string, right: string, display: bool)
    requires |left| + |right| > 0
    ensures AllDelimited(SplitText(t, left, right, display), left, right, display)
  {
    ScanDelimited(t, left, right, display, 0, true);
  }

  /** A left delimiter whose right delimiter is never found stays in the last text piece, together with everything after it. */
  lemma UnmatchedLeftStaysText(t: string, left: string, right: string, display: bool)
    requires |left| + |right| > 0
    requires IndexOf(t, left, 0) != -1
    requires FindEnd(right, t, IndexOf(t, left, 0) + |left|, 0) == -1
    ensures var n := IndexOf(t, left, 0);
      SplitText(t, left, right, display) == [Text(t[..n]), Text(t[n..])]
  {
    var n := IndexOf(t, left, 0);
    assert Scan(t, left, right, display, n, false) == [Text(t[n..])];
    assert t[0..n] == t[..n];
  }

  /** Text without a left delimiter stays one text piece. */
  lemma NoLeftOneText(t: string, left: string, right: string, display: bool)
    requires |left| + |right| > 0
    requires IndexOf(t, left, 0) == -1
    ensures SplitText(t, left, right, display) == [Text(t)]
  {
  }

  /** Splitting a list is splitting its parts: entries are handled one by one, in order. */
  lemma {:induction false} SplitAtAppend(a: seq<Piece>, b: seq<Piece>, left: string, right: string, display: bool)
    requires |left| + |right| > 0
    ensures SplitAt(a + b, left, right, display) == SplitAt(a, left, right, display) + SplitAt(b, left, right, display)
    decreases |a|
  {
    if |a| > 0 {
      SplitAtAppend(a[1..], b, left, right, display);
      assert (a + b)[1..] == a[1..] + b;
    } else {
      assert a + b == b;
    }
  }

  /** A math entry is passed through unchanged. */
  lemma MathPassesThrough(p: Piece, left: string, right: string, display: bool)
    requires p.Math? && |left| + |right| > 0
    ensures SplitAt([p], left, right, display) == [p]
  {
  }

  /** Splitting a list keeps its source text. */
  lemma {:induction false} SplitAtFlatten(ps: seq<Piece>, left: string, right: string, display: bool)
    requires |left| + |right| > 0
    ensures Flatten(SplitAt(ps, left, right, display)) == Flatten(ps)
    decreases |ps|
  {
    if |ps| > 0 {
      var head := if ps[0].Text? then SplitText(ps[0].data, left, right, display) else [ps[0]];
      SplitAtFlatten(ps[1..], left, right, display);
      FlattenAppend(head, SplitAt(ps[1..], left, right, display));
      if ps[0].Text? {
        SplitTextFlatten(ps[0].data, left, right, display);
      }
    }
  }

  // ---------------------------------------------------------------------------
  // Several delimiter pairs

  /** A delimiter pair; a missing `display` counts as false. */
  datatype Delimiter = Delimiter(left: string, right: string, display: Option<bool>)

  predicate Usable(d: Delimiter) {
    |d.left| + |d.right| > 0
  }

  /** `splitWithDelimiters`: the text as one text piece, split at each pair in list order. */
  function SplitWith(t: string, ds: seq<Delimiter>): seq<Piece>
    requires forall k :: 0 <= k < |ds| ==> Usable(ds[k])
    decreases |ds|
  {
    if |ds| == 0 then [Text(t)]
    else
      var d := ds[|ds| - 1];
      var init := ds[..|ds| - 1];
      assert forall k :: 0 <= k < |init| ==> init[k] == ds[k];
      assert Usable(d);
      SplitAt(SplitWith(t, init), d.left, d.right, d.display.GetOr(false))
  }

  /** The pairs are applied in the order given: a pair added at the end splits the previous result. */
  lemma SplitWithLast(t: string, ds: seq<Delimiter>, d: Delimiter)
    requires forall k :: 0 <= k < |ds| ==> Usable(ds[k])
    requires Usable(d)
    ensures SplitWith(t, ds + [d]) == SplitAt(SplitWith(t, ds), d.left, d.right, d.display.GetOr(false))
  {
    assert (ds + [d])[..|ds|] == ds;
  }

  /** However many pairs are applied, the pieces still spell out the text. */
  lemma {:induction false} SplitWithFlatten(t: string, ds: seq<Delimiter>)
    requires forall k :: 0 <= k < |ds| ==> Usable(ds[k])
    ensures Flatten(SplitWith(t, ds)) == t
    decreases |ds|
  {
    if |ds| == 0 {
      assert Flatten([Text(t)]) == t + Flatten([]);
    } else {
      var d := ds[|ds| - 1];
      SplitWithFlatten(t, ds[..|ds| - 1]);
      SplitAtFlatten(SplitWith(t, ds[..|ds| - 1]), d.left, d.right, d.display.GetOr(false));
    }
  }

  /** A math piece is delimited by one of the pairs and carries that pair's display flag. */
  predicate FromSomePair(p: Piece, ds: seq<Delimiter>) {
    p.Math? ==> exists e :: e in ds && Delimited(p, e.left, e.right, e.display.GetOr(false))
  }

  predicate AllFromPairs(ps: seq<Piece>, ds: seq<Delimiter>) {
    forall k :: 0 <= k < |ps| ==> FromSomePair(ps[k], ds)
  }

  lemma AllFromPairsAppend(a: seq<Piece>, b: seq<Piece>, ds: seq<Delimiter>)
    requires AllFromPairs(a, ds) && AllFromPairs(b, ds)
    ensures AllFromPairs(a + b, ds)
  {
    forall k | 0 <= k < |a + b| ensures FromSomePair((a + b)[k], ds) {
      if k >= |a| { assert (a + b)[k] == b[k - |a|]; }
    }
  }

  lemma DelimitedFromPair(ps: seq<Piece>, ds: seq<Delimiter>, d: Delimiter)
    requires d in ds && AllDelimited(ps, d.left, d.right, d.display.GetOr(false))
    ensures AllFromPairs(ps, ds)
  {
    forall k | 0 <= k < |ps| ensures FromSomePair(ps[k], ds) {
      assert Delimited(ps[k], d.left, d.right, d.display.GetOr(false));
    }
  }

  lemma AllFromMorePairs(ps: seq<Piece>, init: seq<Delimiter>, ds: seq<Delimiter>)
    requires AllFromPairs(ps, init) && forall e :: e in init ==> e in ds
    ensures AllFromPairs(ps, ds)
  {
    forall k | 0 <= k < |ps| ensures FromSomePair(ps[k], ds) {
      if ps[k].Math? {
        var e :| e in init && Delimited(ps[k], e.left, e.right, e.display.GetOr(false));
        assert e in ds;
      }
    }
  }

  lemma {:induction false} SplitAtFromPairs(ps: seq<Piece>, ds: seq<Delimiter>, d: Delimiter)
    requires Usable(d) && d in ds && AllFromPairs(ps, ds)
    ensures AllFromPairs(SplitAt(ps, d.left, d.right, d.display.GetOr(false)), ds)
    decreases |ps|
  {
    if |ps| > 0 {
      var disp := d.display.GetOr(false);
      assert AllFromPairs(ps[1..], ds) by {
        forall k | 0 <= k < |ps| - 1 ensures FromSomePair(ps[1..][k], ds) {
          assert ps[1..][k] == ps[k + 1];
        }
      }
      SplitAtFromPairs(ps[1..], ds, d);
      if ps[0].Text? {
        SplitTextDelimited(ps[0].data, d.left, d.right, disp);
        DelimitedFromPair(SplitText(ps[0].data, d.left, d.right, disp), ds, d);
        AllFromPairsAppend(SplitText(ps[0].data, d.left, d.right, disp), SplitAt(ps[1..], d.left, d.right, disp), ds);
      } else {
        assert FromSomePair(ps[0], ds);
        AllFromPairsAppend([ps[0]], SplitAt(ps[1..], d.left, d.right, disp), ds);
      }
    }
  }

  /** Every math piece of the final split is delimited by one of the pairs and carries that pair's display flag. */
  lemma {:induction false} SplitWithDelimited(t: string, ds: seq<Delimiter>)
    requires forall k :: 0 <= k < |ds| ==> Usable(ds[k])
    ensures AllFromPairs(SplitWith(t, ds), ds)
    decreases |ds|
  {
    if |ds| > 0 {
      var init := ds[..|ds| - 1];
      var d := ds[|ds| - 1];
      SplitWithDelimited(t, init);
      AllFromMorePairs(SplitWith(t, init), init, ds);
      SplitAtFromPairs(SplitWith(t, init), ds, d);
    }
  }
}
