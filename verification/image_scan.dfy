/**
 * The image-reference pattern of srcset.js:
 *
 *   /!\[(.*)?\]\((.*)\.(jpe?g|png)( *"(.*)")?\)/mg
 *
 * modelled as the backtracking matcher JavaScript runs: at a start position the
 * greedy title group is tried longest first, then the greedy name group longest
 * first, then the extensions in the order `jpeg`, `jpg`, `png`, then the
 * optional caption group (which is preferred to its absence), and the first
 * combination that completes the pattern is the match. `.` does not match a
 * line terminator, so a match never spans lines. `exec` with the `g` flag
 * returns the leftmost match at or after `lastIndex`.
 */
module ImageScan {
  import opened Wrappers
  import opened Text

  /** The characters JavaScript's `.` refuses to match. */
  predicate IsLineTerminator(c: char) {
    c == '\n' || c == '\r' || c == '\U{2028}' || c == '\U{2029}'
  }

  /** No line terminator in `s[i..j]`. */
  predicate Clear(s: string, i: nat, j: nat)
    requires i <= j <= |s|
  {
    forall k :: i <= k < j ==> !IsLineTerminator(s[k])
  }

  /** The first line terminator at or after `i` (or the end): how far a `.*` starting at `i` can reach. */
  function LineEnd(s: string, i: nat): (r: nat)
    requires i <= |s|
    ensures i <= r <= |s|
    ensures r == |s| || IsLineTerminator(s[r])
    decreases |s| - i
  {
    if i == |s| || IsLineTerminator(s[i]) then i else LineEnd(s, i + 1)
  }

  /** No line terminator lies between `i` and `LineEnd(s, i)`. */
  lemma {:induction false} LineEndClear(s: string, i: nat)
    requires i <= |s|
    ensures Clear(s, i, LineEnd(s, i))
    decreases |s| - i
  {
    if i < |s| && !IsLineTerminator(s[i]) {
      LineEndClear(s, i + 1);
    }
  }

  lemma ClearJoin(s: string, i: nat, j: nat, k: nat)
    requires i <= j <= k <= |s|
    requires Clear(s, i, j) && Clear(s, j, k)
    ensures Clear(s, i, k)
  {
  }

  lemma ClearPrefix(s: string, i: nat, j: nat, k: nat)
    requires i <= j <= k <= |s|
    requires Clear(s, i, k)
    ensures Clear(s, i, j)
  {
  }

  lemma ClearWithin(s: string, i: nat, j: nat, a: nat, b: nat)
    requires i <= a <= b <= j <= |s|
    requires Clear(s, i, j)
    ensures Clear(s, a, b)
  {
  }

  /** A `.*` starting at `i` can reach every position up to which the line is clear. */
  lemma {:induction false} LineEndReaches(s: string, i: nat, j: nat)
    requires i <= j <= |s|
    requires Clear(s, i, j)
    ensures j <= LineEnd(s, i)
    decreases j - i
  {
    if i < j {
      LineEndReaches(s, i + 1, j);
    }
  }

  /** The alternatives of `(jpe?g|png)`, in the order the matcher tries them. */
  function Extension(x: nat): string {
    if x == 0 then "jpeg" else if x == 1 then "jpg" else "png"
  }

  /** Extension alternative `x` occurs at index `i`, compared character by character. */
  predicate ExtensionAt(s: string, i: nat, x: nat) {
    if x == 0 then i + 4 <= |s| && s[i] == 'j' && s[i + 1] == 'p' && s[i + 2] == 'e' && s[i + 3] == 'g'
    else if x == 1 then i + 3 <= |s| && s[i] == 'j' && s[i + 1] == 'p' && s[i + 2] == 'g'
    else i + 3 <= |s| && s[i] == 'p' && s[i + 1] == 'n' && s[i + 2] == 'g'
  }

  lemma ExtensionText(s: string, i: nat, x: nat)
    requires ExtensionAt(s, i, x)
    ensures i + |Extension(x)| <= |s| && s[i..i + |Extension(x)|] == Extension(x)
    ensures Clear(s, i, i + |Extension(x)|)
  {
  }

  /** The two characters `a`, `b` occur at index `i`. */
  predicate PairAt(s: string, i: nat, a: char, b: char) {
    i + 2 <= |s| && s[i] == a && s[i + 1] == b
  }

  predicate IsExtension(e: string) {
    e == "jpeg" || e == "jpg" || e == "png"
  }

  /** One image reference: the span `s[start..end]` and its capture groups. */
  datatype ImageRef = ImageRef(
    start: nat, end: nat,
    title: string,           // group 1 (undefined and empty are the same to the caller)
    name: string,            // group 2: the base name, possibly a URL
    ext: string,             // group 3
    gap: nat,                // spaces before the caption's opening quote
    caption: Option<string>) // group 5, when group 4 matched

  function Spaces(n: nat): string
    decreases n
  {
    if n == 0 then "" else " " + Spaces(n - 1)
  }

  /** The optional caption and the closing parenthesis. */
  function TailText(gap: nat, caption: Option<string>): string {
    (match caption case Some(c) => Spaces(gap) + "\"" + c + "\"" case None => "") + ")"
  }

  /** The part of a reference before the optional caption. */
  function Head(m: ImageRef): string {
    "![" + m.title + "](" + m.name + "." + m.ext
  }

  /** The text a reference matches, rebuilt from its groups. */
  function Rendered(m: ImageRef): string {
    Head(m) + TailText(m.gap, m.caption)
  }

  /** What `( *"(.*)")?\)` matched, and where the match ends. */
  datatype TailMatch = TailMatch(gap: nat, caption: Option<string>, end: nat)

  /** What `(.*)\.(jpe?g|png)( *"(.*)")?\)` matched: the name ends at the dot `nameEnd`. */
  datatype Payload = Payload(nameEnd: nat, ext: string, tail: TailMatch)

  /** Length of the run of spaces starting at `i`: ` *` is greedy, and fewer spaces would leave a space where `"` is needed. */
  function SpaceRun(s: string, i: nat): (k: nat)
    requires i <= |s|
    ensures i + k <= |s|
    decreases |s| - i
  {
    if i < |s| && s[i] == ' ' then 1 + SpaceRun(s, i + 1) else 0
  }

  lemma {:induction false} SpaceRunSpaces(s: string, i: nat)
    requires i <= |s|
    ensures s[i..i + SpaceRun(s, i)] == Spaces(SpaceRun(s, i))
    decreases |s| - i
  {
    if i < |s| && s[i] == ' ' {
      SpaceRunSpaces(s, i + 1);
      assert s[i..i + SpaceRun(s, i)] == [s[i]] + s[i + 1..i + SpaceRun(s, i)];
    }
  }

  /** `(.*)"` then `\)`: the caption end is tried from `ce` downwards to `lo`. */
  function CaptionEnd(s: string, lo: nat, ce: nat): (r: int)
    requires lo <= ce <= |s|
    ensures r == -1 || (lo <= r <= ce && r + 2 <= |s| && s[r] == '"' && s[r + 1] == ')')
    decreases ce
  {
    if ce + 2 <= |s| && s[ce] == '"' && s[ce + 1] == ')' then ce
    else if ce == lo then -1
    else CaptionEnd(s, lo, ce - 1)
  }

  /** `( *"(.*)")?\)` at `r`: the caption group is tried first, then its absence. */
  function Tail(s: string, r: nat): (t: Option<TailMatch>)
    requires r <= |s|
    ensures t.Some? ==> r < t.value.end <= |s|
  {
    var k := SpaceRun(s, r);
    var q := r + k;
    var ce := if q < |s| && s[q] == '"' then CaptionEnd(s, q + 1, LineEnd(s, q + 1)) else -1;
    if ce >= 0 then Some(TailMatch(k, Some(s[q + 1..ce]), ce + 2))
    else if r < |s| && s[r] == ')' then Some(TailMatch(0, None, r + 1))
    else None
  }

  /** `\.(jpe?g|png)` then the tail, at the dot position `ne`, trying the extensions from index `x` on. */
  function ExtTail(s: string, ne: nat, x: nat): (p: Option<Payload>)
    requires ne <= |s|
    ensures p.Some? ==> p.value.nameEnd == ne && ne < p.value.tail.end <= |s|
    decreases 3 - x
  {
    if x >= 3 || ne >= |s| || s[ne] != '.' then None
    else
      var t := if ExtensionAt(s, ne + 1, x) then Tail(s, ne + 1 + |Extension(x)|) else None;
      if t.Some? then Some(Payload(ne, Extension(x), t.value))
      else ExtTail(s, ne, x + 1)
  }

  /** `(.*)` for the name, tried from end `ne` downwards to `q`. */
  function NameSearch(s: string, q: nat, ne: nat): (p: Option<Payload>)
    requires q <= ne <= |s|
    ensures p.Some? ==> q <= p.value.nameEnd <= ne && p.value.nameEnd < p.value.tail.end <= |s|
    decreases ne
  {
    var found := ExtTail(s, ne, 0);
    if found.Some? then found
    else if ne == q then None
    else NameSearch(s, q, ne - 1)
  }

  /** Everything after `](`: `(.*)\.(jpe?g|png)( *"(.*)")?\)`. */
  function PayloadAt(s: string, q: nat): (p: Option<Payload>)
    requires q <= |s|
    ensures p.Some? ==> q <= p.value.nameEnd <= LineEnd(s, q) && p.value.nameEnd < p.value.tail.end <= |s|
  {
    NameSearch(s, q, LineEnd(s, q))
  }

  /** A title may end at `te`: `](` follows and the rest of the pattern matches after it. */
  predicate TitleWorks(s: string, te: nat) {
    PairAt(s, te, ']', '(') && PayloadAt(s, te + 2).Some?
  }

  /**
   * The greedy title group: the largest title end in `[lo, te]` that lets the
   * pattern complete, with the rest of the match found there.
   */
  function TitleSearch(s: string, lo: nat, te: nat): (r: Option<(nat, Payload)>)
    requires lo <= te
    ensures r.Some? ==> lo <= r.value.0 <= te && r.value.0 + 2 <= r.value.1.nameEnd < r.value.1.tail.end <= |s|
    decreases te - lo
  {
    var found := if PairAt(s, te, ']', '(') then PayloadAt(s, te + 2) else None;
    if found.Some? then Some((te, found.value))
    else if te == lo then None
    else TitleSearch(s, lo, te - 1)
  }

  /** The match the pattern finds when started exactly at `p`, if any. */
  function MatchAt(s: string, p: nat): (r: Option<ImageRef>)
    ensures r.Some? ==> r.value.start == p && p + 2 <= |s| && p < r.value.end <= |s|
  {
    if !PairAt(s, p, '!', '[') then None
    else
      match TitleSearch(s, p + 2, LineEnd(s, p + 2))
      case None => None
      case Some((te, pl)) =>
        Some(ImageRef(p, pl.tail.end, s[p + 2..te], s[te + 2..pl.nameEnd], pl.ext, pl.tail.gap, pl.tail.caption))
  }

  /** `re.exec(s)` with `re.lastIndex == from`: the first match starting at or after `from`. */
  function Exec(s: string, from: nat): (r: Option<ImageRef>)
    ensures r.Some? ==> from <= r.value.start < r.value.end <= |s|
    decreases |s| + 1 - from
  {
    if from > |s| then None
    else if MatchAt(s, from).Some? then MatchAt(s, from)
    else Exec(s, from + 1)
  }

  // ---------------------------------------------------------------------------
  // The search functions find what the pattern describes

  /** `TitleSearch` returns a title end that works, and no larger one in range works. */
  lemma {:induction false} TitleSearchSpec(s: string, lo: nat, te: nat)
    requires lo <= te
    ensures var r := TitleSearch(s, lo, te);
      && (r.Some? ==> PairAt(s, r.value.0, ']', '(') && PayloadAt(s, r.value.0 + 2) == Some(r.value.1))
      && (r.Some? ==> forall k :: r.value.0 < k <= te ==> !TitleWorks(s, k))
      && (r.None? ==> forall k :: lo <= k <= te ==> !TitleWorks(s, k))
    decreases te - lo
  {
    if !TitleWorks(s, te) && te > lo {
      TitleSearchSpec(s, lo, te - 1);
    }
  }

  /** What `Exec` returns is the match at its own start. */
  lemma {:induction false} ExecFound(s: string, from: nat)
    requires Exec(s, from).Some?
    ensures MatchAt(s, Exec(s, from).value.start) == Exec(s, from)
    decreases |s| + 1 - from
  {
    if MatchAt(s, from).None? {
      ExecFound(s, from + 1);
    }
  }

  /** `Exec` skips no match: none starts between `from` and what it returns, or anywhere after `from` when it returns nothing. */
  lemma {:induction false} ExecLeftmost(s: string, from: nat)
    ensures Exec(s, from).Some? ==> forall p :: from <= p < Exec(s, from).value.start ==> MatchAt(s, p).None?
    ensures Exec(s, from).None? ==> forall p :: from <= p ==> MatchAt(s, p).None?
    decreases |s| + 1 - from
  {
    if from <= |s| && MatchAt(s, from).None? {
      ExecLeftmost(s, from + 1);
    }
  }

  // ---------------------------------------------------------------------------
  // What a match is

  /** The span of a match is the reference its groups spell, and it lies on one line. */
  ghost predicate WellFormed(s: string, m: ImageRef) {
    && m.start < m.end <= |s|
    && s[m.start..m.end] == Rendered(m)
    && IsExtension(m.ext)
    && Clear(s, m.start, m.end)
  }

  lemma SliceJoin(s: string, i: nat, j: nat, k: nat)
    requires i <= j <= k <= |s|
    ensures s[i..k] == s[i..j] + s[j..k]
  {
  }

  /** A run of spaces, a quote, a caption within its line, a quote and `)`. */
  lemma CaptionTailFacts(s: string, r: nat, q: nat, ce: nat)
    requires r <= q < ce && ce + 2 <= |s|
    requires s[r..q] == Spaces(q - r) && s[q] == '"' && s[ce] == '"' && s[ce + 1] == ')'
    requires ce <= LineEnd(s, q + 1)
    ensures s[r..ce + 2] == TailText(q - r, Some(s[q + 1..ce]))
    ensures Clear(s, r, ce + 2)
  {
    var c := s[q + 1..ce];
    assert s[r..ce + 2] == s[r..q] + [s[q]] + c + [s[ce]] + [s[ce + 1]];
    LineEndClear(s, q + 1);
    forall j | r <= j < q
      ensures s[j] == ' '
    {
      assert s[j] == s[r..q][j - r];
      SpacesChars(q - r, j - r);
    }
  }

  /** The span of a tail is its rendered text, without line terminators. */
  lemma TailFacts(s: string, r: nat, t: TailMatch)
    requires r <= |s|
    requires Tail(s, r) == Some(t)
    ensures r < t.end <= |s| && s[r..t.end] == TailText(t.gap, t.caption) && Clear(s, r, t.end)
  {
    var k := SpaceRun(s, r);
    var q := r + k;
    var ce := if q < |s| && s[q] == '"' then CaptionEnd(s, q + 1, LineEnd(s, q + 1)) else -1;
    if ce >= 0 {
      SpaceRunSpaces(s, r);
      CaptionTailFacts(s, r, q, ce);
    } else {
      assert s[r..r + 1] == [s[r]];
    }
  }

  lemma {:induction false} SpacesChars(n: nat, i: nat)
    requires i < n
    ensures |Spaces(n)| == n && Spaces(n)[i] == ' '
    decreases n
  {
    if i > 0 {
      SpacesChars(n - 1, i - 1);
    } else if n > 1 {
      SpacesChars(n - 1, 0);
    }
  }

  /** A successful `ExtTail` saw a dot and an extension index in range, and took one step. */
  lemma ExtTailStep(s: string, ne: nat, x: nat, p: Payload)
    requires ne <= |s|
    requires ExtTail(s, ne, x) == Some(p)
    ensures x < 3 && ne < |s| && s[ne] == '.'
    ensures if ExtensionAt(s, ne + 1, x) && Tail(s, ne + 1 + |Extension(x)|).Some?
      then p == Payload(ne, Extension(x), Tail(s, ne + 1 + |Extension(x)|).value)
      else ExtTail(s, ne, x + 1) == Some(p)
  {
  }

  /** A dot at `ne`, extension `p.ext` spelled out after it, and the tail after that, all on one line. */
  predicate ExtTailShape(s: string, ne: nat, p: Payload) {
    && ne < |s| && s[ne] == '.' && IsExtension(p.ext)
    && ne + 1 + |p.ext| <= |s| && s[ne + 1..ne + 1 + |p.ext|] == p.ext && Clear(s, ne, ne + 1 + |p.ext|)
    && ne + 1 + |p.ext| < p.tail.end <= |s|
    && s[ne + 1 + |p.ext|..p.tail.end] == TailText(p.tail.gap, p.tail.caption) && Clear(s, ne + 1 + |p.ext|, p.tail.end)
  }

  /** The alternative `x` that matched gives that shape. */
  lemma ExtFoundShape(s: string, ne: nat, x: nat, p: Payload)
    requires ne < |s| && s[ne] == '.' && x < 3 && ExtensionAt(s, ne + 1, x)
    requires Tail(s, ne + 1 + |Extension(x)|).Some?
    requires p == Payload(ne, Extension(x), Tail(s, ne + 1 + |Extension(x)|).value)
    ensures ExtTailShape(s, ne, p)
  {
    ExtensionText(s, ne + 1, x);
    TailFacts(s, ne + 1 + |Extension(x)|, p.tail);
  }

  /** What `ExtTail` found: a dot, an extension spelled out after it, and a tail after that. */
  lemma {:induction false} ExtTailFacts(s: string, ne: nat, x: nat, p: Payload)
    requires ne <= |s|
    requires ExtTail(s, ne, x) == Some(p)
    ensures ExtTailShape(s, ne, p)
    decreases 3 - x
  {
    ExtTailStep(s, ne, x, p);
    if ExtensionAt(s, ne + 1, x) && Tail(s, ne + 1 + |Extension(x)|).Some? {
      ExtFoundShape(s, ne, x, p);
    } else {
      ExtTailFacts(s, ne, x + 1, p);
    }
  }

  /** `NameSearch` hands on what `ExtTail` found at the name end it settled on. */
  lemma {:induction false} NameSearchFacts(s: string, q: nat, ne: nat, p: Payload)
    requires q <= ne <= |s|
    requires NameSearch(s, q, ne) == Some(p)
    ensures p.nameEnd <= |s| && ExtTail(s, p.nameEnd, 0) == Some(p)
    decreases ne
  {
    if ExtTail(s, ne, 0).None? {
      NameSearchFacts(s, q, ne - 1, p);
    }
  }

  /** A successful title search stopped at a `](` followed by a payload. */
  lemma {:induction false} TitleSearchFound(s: string, lo: nat, hi: nat, te: nat, pl: Payload)
    requires lo <= hi
    requires TitleSearch(s, lo, hi) == Some((te, pl))
    ensures PairAt(s, te, ']', '(') && PayloadAt(s, te + 2) == Some(pl)
    decreases hi - lo
  {
    if !(PairAt(s, hi, ']', '(') && PayloadAt(s, hi + 2).Some?) {
      TitleSearchFound(s, lo, hi - 1, te, pl);
    }
  }

  /** A payload found after `](` ends its name within the line, at a dot that `ExtTail` accepts. */
  lemma PayloadFacts(s: string, q: nat, pl: Payload)
    requires q <= |s|
    requires PayloadAt(s, q) == Some(pl)
    ensures q <= pl.nameEnd <= LineEnd(s, q) && ExtTail(s, pl.nameEnd, 0) == Some(pl)
  {
    NameSearchFacts(s, q, LineEnd(s, q), pl);
  }

  /** The text before the optional caption, spelled out character by character. */
  lemma HeadText(s: string, p: nat, te: nat, ne: nat, r: nat, m: ImageRef)
    requires p + 2 <= te && te + 2 <= ne < r <= |s|
    requires PairAt(s, p, '!', '[') && PairAt(s, te, ']', '(') && s[ne] == '.'
    requires m.title == s[p + 2..te] && m.name == s[te + 2..ne] && m.ext == s[ne + 1..r]
    ensures s[p..r] == Head(m)
  {
    assert s[p..r] == s[p..p + 2] + s[p + 2..te] + s[te..te + 2] + s[te + 2..ne] + [s[ne]] + s[ne + 1..r];
  }

  /** A reference assembled from pieces located on one line is well formed. */
  lemma PiecesWellFormed(s: string, p: nat, te: nat, ne: nat, ext: string, t: TailMatch)
    requires p + 2 <= te && te + 2 <= ne && ne + 1 + |ext| < t.end <= |s|
    requires te <= LineEnd(s, p + 2) && ne <= LineEnd(s, te + 2)
    requires PairAt(s, p, '!', '[') && PairAt(s, te, ']', '(') && s[ne] == '.'
    requires IsExtension(ext) && s[ne + 1..ne + 1 + |ext|] == ext && Clear(s, ne, ne + 1 + |ext|)
    requires s[ne + 1 + |ext|..t.end] == TailText(t.gap, t.caption) && Clear(s, ne + 1 + |ext|, t.end)
    ensures WellFormed(s, ImageRef(p, t.end, s[p + 2..te], s[te + 2..ne], ext, t.gap, t.caption))
  {
    var m := ImageRef(p, t.end, s[p + 2..te], s[te + 2..ne], ext, t.gap, t.caption);
    var r := ne + 1 + |m.ext|;
    HeadText(s, p, te, ne, r, m);
    SliceJoin(s, p, r, m.end);
    PiecesClear(s, p, te, ne, r, m.end);
  }

  /** A span whose pieces are each free of line terminators is free of them. */
  lemma PiecesClear(s: string, p: nat, te: nat, ne: nat, r: nat, end: nat)
    requires p + 2 <= te && te + 2 <= ne < r <= end <= |s|
    requires te <= LineEnd(s, p + 2) && ne <= LineEnd(s, te + 2)
    requires PairAt(s, p, '!', '[') && PairAt(s, te, ']', '(')
    requires Clear(s, ne, r) && Clear(s, r, end)
    ensures Clear(s, p, end)
  {
    LineEndClear(s, p + 2);
    ClearPrefix(s, p + 2, te, LineEnd(s, p + 2));
    LineEndClear(s, te + 2);
    ClearPrefix(s, te + 2, ne, LineEnd(s, te + 2));
    ClearJoin(s, p, p + 2, te);
    ClearJoin(s, p, te, te + 2);
    ClearJoin(s, p, te + 2, ne);
    ClearJoin(s, p, ne, r);
    ClearJoin(s, p, r, end);
  }

  /** The reference assembled around a payload found after `](` is well formed. */
  lemma PayloadWellFormed(s: string, p: nat, te: nat, pl: Payload)
    requires PairAt(s, p, '!', '[') && p + 2 <= te <= LineEnd(s, p + 2) && PairAt(s, te, ']', '(')
    requires PayloadAt(s, te + 2) == Some(pl)
    ensures pl.nameEnd <= |s|
    ensures WellFormed(s, ImageRef(p, pl.tail.end, s[p + 2..te], s[te + 2..pl.nameEnd], pl.ext, pl.tail.gap, pl.tail.caption))
  {
    PayloadPieces(s, te + 2, pl);
    PiecesWellFormed(s, p, te, pl.nameEnd, pl.ext, pl.tail);
  }

  /** What a payload found at `q` consists of: a name within the line, a dot, an extension and a tail. */
  lemma PayloadPieces(s: string, q: nat, pl: Payload)
    requires q <= |s| && PayloadAt(s, q) == Some(pl)
    ensures q <= pl.nameEnd <= LineEnd(s, q) && ExtTailShape(s, pl.nameEnd, pl)
  {
    PayloadFacts(s, q, pl);
    ExtTailFacts(s, pl.nameEnd, 0, pl);
  }

  /** Soundness: a match at `p` is a well-formed reference that starts at `p`. */
  lemma MatchAtWellFormed(s: string, p: nat)
    requires MatchAt(s, p).Some?
    ensures WellFormed(s, MatchAt(s, p).value)
  {
    var hi := LineEnd(s, p + 2);
    var (te, pl) := TitleSearch(s, p + 2, hi).value;
    TitleSearchFound(s, p + 2, hi, te, pl);
    PayloadWellFormed(s, p, te, pl);
    MatchAtFound(s, p, te, pl);
  }

  /** The match at `p` is the reference assembled from what the title search found. */
  lemma MatchAtFound(s: string, p: nat, te: nat, pl: Payload)
    requires MatchAt(s, p).Some?
    requires TitleSearch(s, p + 2, LineEnd(s, p + 2)) == Some((te, pl))
    ensures p + 2 <= te && pl.nameEnd <= |s|
    ensures MatchAt(s, p).value == ImageRef(p, pl.tail.end, s[p + 2..te], s[te + 2..pl.nameEnd], pl.ext, pl.tail.gap, pl.tail.caption)
  {
  }

  // ---------------------------------------------------------------------------
  // At most one reference per line

  /** A match at `p` has a title ending at the largest working title end on its line. */
  lemma MatchAtTitle(s: string, p: nat)
    requires MatchAt(s, p).Some?
    ensures var m := MatchAt(s, p).value;
      && PairAt(s, p, '!', '[')
      && p + 2 + |m.title| + 2 < m.end
      && p + 2 + |m.title| <= LineEnd(s, p + 2)
      && TitleWorks(s, p + 2 + |m.title|)
      && forall k :: p + 2 + |m.title| < k <= LineEnd(s, p + 2) ==> !TitleWorks(s, k)
  {
    TitleSearchSpec(s, p + 2, LineEnd(s, p + 2));
  }

  /**
   * The greedy title makes a match swallow every later reference on its line:
   * no match starts on the same line at or after the end of another.
   */
  lemma NoLaterMatchOnLine(s: string, p: nat, p2: nat)
    requires p2 <= |s|
    requires MatchAt(s, p).Some?
    requires MatchAt(s, p).value.end <= p2
    requires Clear(s, p, p2)
    ensures MatchAt(s, p2).None?
  {
    if MatchAt(s, p2).Some? {
      LaterTitleOnLine(s, p, p2);
      MatchAtTitle(s, p);
      assert false;
    }
  }

  /** A match at `p2`, later on the line of the match at `p`, offers `p` a longer working title. */
  lemma LaterTitleOnLine(s: string, p: nat, p2: nat)
    requires p2 <= |s|
    requires MatchAt(s, p).Some? && MatchAt(s, p2).Some?
    requires MatchAt(s, p).value.end <= p2
    requires Clear(s, p, p2)
    ensures var te2 := p2 + 2 + |MatchAt(s, p2).value.title|;
      p + 2 + |MatchAt(s, p).value.title| < te2 <= LineEnd(s, p + 2) && TitleWorks(s, te2)
  {
    MatchAtTitle(s, p);
    MatchAtTitle(s, p2);
    TitleOnSameLine(s, p, p2, p2 + 2 + |MatchAt(s, p2).value.title|);
  }

  /** A title end on the line of a `![` at `p2` lies on the line of `p` too, when the text from `p` to `p2` is clear. */
  lemma TitleOnSameLine(s: string, p: nat, p2: nat, te2: nat)
    requires p <= p2 && PairAt(s, p2, '!', '[') && p2 + 2 <= te2 <= LineEnd(s, p2 + 2)
    requires Clear(s, p, p2)
    ensures te2 <= LineEnd(s, p + 2)
  {
    LineEndClear(s, p2 + 2);
    ClearPrefix(s, p2 + 2, te2, LineEnd(s, p2 + 2));
    ClearJoin(s, p, p2, p2 + 2);
    ClearJoin(s, p, p2 + 2, te2);
    ClearWithin(s, p, te2, p + 2, te2);
    LineEndReaches(s, p + 2, te2);
  }

  /** The references the `g`-flagged pattern finds in an unchanging text, from `from` on. */
  function AllMatches(s: string, from: nat): (ms: seq<ImageRef>)
    ensures forall i :: 0 <= i < |ms| ==> from <= ms[i].start < ms[i].end <= |s|
    ensures forall i, j :: 0 <= i < j < |ms| ==> ms[i].end <= ms[j].start
    decreases |s| + 1 - from
  {
    match Exec(s, from)
    case None => []
    case Some(m) => [m] + AllMatches(s, m.end)
  }

  /** Every reference in a pass is a match at its own start. */
  lemma {:induction false} AllMatchesAreMatches(s: string, from: nat, i: nat)
    requires i < |AllMatches(s, from)|
    ensures MatchAt(s, AllMatches(s, from)[i].start) == Some(AllMatches(s, from)[i])
    decreases |s| + 1 - from
  {
    ExecFound(s, from);
    var m := Exec(s, from).value;
    if i > 0 {
      AllMatchesAreMatches(s, m.end, i - 1);
    }
  }

  /** A match never shares its line with a match that starts after it ends. */
  lemma SeparateLines(s: string, p: nat, n: ImageRef)
    requires MatchAt(s, p).Some? && MatchAt(s, n.start) == Some(n)
    requires MatchAt(s, p).value.end <= n.start
    ensures !Clear(s, p, n.start)
  {
    if Clear(s, p, n.start) {
      NoLaterMatchOnLine(s, p, n.start);
      assert false;
    }
  }

  /** Any two references found in one pass over an unchanging text lie on different lines. */
  lemma {:induction false} MatchesOnDistinctLines(s: string, from: nat, i: nat, j: nat)
    requires i < j < |AllMatches(s, from)|
    ensures var ms := AllMatches(s, from);
      !Clear(s, ms[i].start, ms[j].start)
    decreases |s| + 1 - from
  {
    var ms := AllMatches(s, from);
    if i > 0 {
      var m := Exec(s, from).value;
      var rest := AllMatches(s, m.end);
      assert ms == [m] + rest;
      MatchesOnDistinctLines(s, m.end, i - 1, j - 1);
      assert ms[i] == rest[i - 1] && ms[j] == rest[j - 1];
    } else {
      AllMatchesAreMatches(s, from, 0);
      AllMatchesAreMatches(s, from, j);
      SeparateLines(s, ms[0].start, ms[j]);
    }
  }
}
