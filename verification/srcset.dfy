/**
 * The `srcset` build step (srcset.js): every local JPEG or PNG image reference
 * in a Markdown document is rewritten into an `<img>` tag with a `srcset`
 * attribute listing one resized variant per configured width, and the resizes
 * and copies those variants need are scheduled.
 *
 * The file system is a map from path to modification time (a path is present
 * exactly when the file exists). The scheduled work is returned as a list of
 * `Op` values in the order the promises are created.
 */
module Srcset {
  import opened Wrappers
  import opened Text
  import PosixPath
  import opened ImageScan
  import opened Staleness

  /** The plugin's options as the site configuration gives them. */
  datatype Options = Options(
    sizes: seq<nat>,            // the widths, in pixels
    defaultSize: Option<nat>,
    rule: Option<string>,       // the `sizes` attribute
    attribution: Option<bool>)

  /** The options after defaulting; `defaultSize` is kept as the text it is concatenated as. */
  datatype Config = Config(sizes: seq<nat>, defaultSize: string, rule: string, attribution: bool)

  /**
   * `defaultSize || sizes[0]`, `rule || "100vw"` and `attribution || true`:
   * the falsy 0 and "" fall back like absent values, an empty width list
   * leaves `undefined`, and `attribution` is always on.
   */
  function Configure(o: Options): (c: Config)
    ensures c.sizes == o.sizes && c.attribution
    ensures o.defaultSize.Some? && o.defaultSize.value != 0 ==> c.defaultSize == NatToString(o.defaultSize.value)
    ensures (o.defaultSize.None? || o.defaultSize.value == 0) && |o.sizes| > 0 ==> c.defaultSize == NatToString(o.sizes[0])
    ensures (o.defaultSize.None? || o.defaultSize.value == 0) && |o.sizes| == 0 ==> c.defaultSize == "undefined"
    ensures o.rule.Some? && o.rule.value != "" ==> c.rule == o.rule.value
    ensures o.rule.None? || o.rule.value == "" ==> c.rule == "100vw"
  {
    var size :=
      if o.defaultSize.Some? && o.defaultSize.value != 0 then NatToString(o.defaultSize.value)
      else if |o.sizes| > 0 then NatToString(o.sizes[0])
      else "undefined";
    var rule := if o.rule.Some? && o.rule.value != "" then o.rule.value else "100vw";
    Config(o.sizes, size, rule, true)
  }

  // ---------------------------------------------------------------------------
  // Markup

  /** The file name of a variant: `B_W.E`. */
  function VariantName(name: string, width: string, ext: string): string {
    name + "_" + width + "." + ext
  }

  /** One `srcset` candidate: the variant and its width descriptor, `B_W.E Ww`. */
  function Candidate(name: string, ext: string, w: nat): string {
    VariantName(name, NatToString(w), ext) + " " + NatToString(w) + "w"
  }

  /** The candidates for the widths, in the configured order. */
  function Candidates(name: string, ext: string, ws: seq<nat>): (cs: seq<string>)
    ensures |cs| == |ws|
    ensures forall i :: 0 <= i < |ws| ==> cs[i] == Candidate(name, ext, ws[i])
    decreases |ws|
  {
    if |ws| == 0 then [] else [Candidate(name, ext, ws[0])] + Candidates(name, ext, ws[1..])
  }

  /**
   * The `srcset` value as the loop builds it: each candidate is appended after
   * the separator, which is empty before the first one and "," after.
   */
  function AppendCandidates(acc: string, comma: string, name: string, ext: string, ws: seq<nat>): string
    decreases |ws|
  {
    if |ws| == 0 then acc
    else AppendCandidates(acc + comma + Candidate(name, ext, ws[0]), ",", name, ext, ws[1..])
  }

  function SrcsetValue(name: string, ext: string, ws: seq<nat>): string {
    AppendCandidates("", "", name, ext, ws)
  }

  /** The opening of the `<img>` tag, up to its `src` attribute. */
  function SrcPart(c: Config, name: string, ext: string): string {
    "<img src=\"" + VariantName(name, c.defaultSize, ext) + "\" "
  }

  /** The `<img>` tag for a reference. */
  function ImgTag(c: Config, title: string, name: string, ext: string): string {
    SrcPart(c, name, ext)
    + "title=\"" + title + "\" srcset=\"" + SrcsetValue(name, ext, c.sizes)
    + "\" sizes=\"" + c.rule + "\"" + "/>"
  }

  /** A tag inside a figure with a caption. */
  function Figure(tag: string, caption: string): string {
    "<figure>" + tag + "<figcaption>" + caption + "</figcaption></figure>"
  }

  /** The replacement for a reference: the tag, inside a captioned figure when the caption is not empty. */
  function Markup(c: Config, title: string, name: string, ext: string, caption: string): string {
    var tag := ImgTag(c, title, name, ext);
    if c.attribution && caption != "" then Figure(tag, caption) else tag
  }

  /** A figure holds the tag and the caption verbatim, and both can be cut back out of it at fixed offsets. */
  lemma FigureParts(tag: string, caption: string)
    ensures var r := Figure(tag, caption);
      && StartsWith(r, "<figure>") && EndsWith(r, "</figcaption></figure>")
      && |r| == 8 + |tag| + 12 + |caption| + 22
      && r[8..8 + |tag|] == tag
      && r[8 + |tag|..8 + |tag| + 12] == "<figcaption>"
      && r[8 + |tag| + 12..|r| - 22] == caption
  {
    var head, close := "<figure>" + tag + "<figcaption>", "</figcaption></figure>";
    var r := head + caption + close;
    assert Figure(tag, caption) == r;
    assert r[..8] == "<figure>";
    assert r[|r| - 22..] == close;
    assert r[8..8 + |tag|] == tag;
    assert r[8 + |tag|..8 + |tag| + 12] == "<figcaption>";
    assert r[|head|..|r| - 22] == caption;
  }

  /**
   * With attribution and a caption the markup is a figure of the tag and the
   * caption, taken verbatim; otherwise it is the bare tag.
   */
  lemma MarkupParts(c: Config, title: string, name: string, ext: string, caption: string)
    ensures var r := Markup(c, title, name, ext, caption); var tag := ImgTag(c, title, name, ext);
      c.attribution && caption != "" ==>
        && StartsWith(r, "<figure>") && EndsWith(r, "</figcaption></figure>")
        && |r| == 8 + |tag| + 12 + |caption| + 22
        && r[8..8 + |tag|] == tag
        && r[8 + |tag| + 12..|r| - 22] == caption
    ensures !c.attribution || caption == "" ==> Markup(c, title, name, ext, caption) == ImgTag(c, title, name, ext)
  {
    FigureParts(ImgTag(c, title, name, ext), caption);
  }

  /** `match[5] || ""`. */
  function CaptionText(caption: Option<string>): string {
    caption.GetOr("")
  }

  // ---------------------------------------------------------------------------
  // Scheduling

  /** The source and build directories, and the modification times of the files that exist. */
  datatype Site = Site(sourceDir: string, destDir: string, mtimes: map<string, int>)

  function When(site: Site, path: string): Option<int> {
    if path in site.mtimes then Some(site.mtimes[path]) else None
  }

  /** `path.join(dir, path.dirname(file), name)`. */
  function PathIn(dir: string, file: string, name: string): string {
    PosixPath.JoinPaths([dir, PosixPath.Dirname(file), name])
  }

  /** The work for one width of the image `name.ext` referenced from `file`. */
  function WidthOps(site: Site, file: string, name: string, ext: string, srcWhen: int, w: nat): seq<Op> {
    var sized := VariantName(name, NatToString(w), ext);
    var sizedPath := PathIn(site.sourceDir, file, sized);
    var buildPath := PathIn(site.destDir, file, sized);
    var d := Decide(srcWhen, When(site, sizedPath), When(site, buildPath));
    Schedule(d, PathIn(site.sourceDir, file, name + "." + ext), sizedPath, w, buildPath)
  }

  /** The work for every width, in the configured order. */
  function ReferenceOps(site: Site, file: string, name: string, ext: string, srcWhen: int, ws: seq<nat>): (ops: seq<Op>)
    ensures |ops| <= |ws|
    decreases |ws|
  {
    if |ws| == 0 then []
    else WidthOps(site, file, name, ext, srcWhen, ws[0]) + ReferenceOps(site, file, name, ext, srcWhen, ws[1..])
  }

  // ---------------------------------------------------------------------------
  // Rewriting one document

  /** How processing a document ends. */
  datatype FileOutcome =
    | Rewritten(contents: string, ops: seq<Op>)
      // a referenced source image does not exist: `fs.statSync` throws
    | MissingSource(path: string, ops: seq<Op>)
      // the scan did not finish within the step bound
    | OutOfFuel(ops: seq<Op>)

  /** A reference to an image on another site. */
  predicate External(m: ImageRef) {
    StartsWith(m.name, "http")
  }

  /**
   * The `while ((match = re.exec(contents)))` loop from `lastIndex == from`:
   * each local reference is replaced (first occurrence of its text) by its
   * markup, and the scan goes on from where the match ended in the text
   * before the replacement. `ops` is the work scheduled so far; at most `fuel`
   * matches are handled.
   */
  function ProcessFrom(c: Config, site: Site, file: string, contents: string, from: nat, ops: seq<Op>, fuel: nat): FileOutcome
    decreases fuel
  {
    if fuel == 0 then OutOfFuel(ops)
    else
      match Exec(contents, from)
      case None => Rewritten(contents, ops)
      case Some(m) =>
        if External(m) then ProcessFrom(c, site, file, contents, m.end, ops, fuel - 1)
        else
          var sourcePath := PathIn(site.sourceDir, file, m.name + "." + m.ext);
          if sourcePath !in site.mtimes then MissingSource(sourcePath, ops)
          else
            var more := ReferenceOps(site, file, m.name, m.ext, site.mtimes[sourcePath], c.sizes);
            var markup := Markup(c, m.title, m.name, m.ext, CaptionText(m.caption));
            var next := ReplaceFirst(contents, contents[m.start..m.end], markup);
            ProcessFrom(c, site, file, next, m.end, ops + more, fuel - 1)
  }

  /** `processFile(file, contents, promises)` with an empty promise list. */
  function ProcessFile(c: Config, site: Site, file: string, contents: string, fuel: nat): FileOutcome {
    ProcessFrom(c, site, file, contents, 0, [], fuel)
  }

  // ---------------------------------------------------------------------------
  // Rewriting every document

  datatype Doc = Doc(path: string, contents: string)

  /** How a run over all documents ends: `failed` holds the outcome that stopped it, if any. */
  datatype RunOutcome = RunOutcome(docs: seq<Doc>, ops: seq<Op>, failed: Option<FileOutcome>)

  /**
   * The documents in order, sharing one promise list. A document that throws
   * stops the run; the documents before it have already been rewritten.
   */
  function Run(c: Config, site: Site, docs: seq<Doc>, fuel: nat): (r: RunOutcome)
    ensures |r.docs| == |docs|
    decreases |docs|
  {
    if |docs| == 0 then RunOutcome([], [], None)
    else
      match ProcessFile(c, site, docs[0].path, docs[0].contents, fuel)
      case Rewritten(contents, ops) =>
        var rest := Run(c, site, docs[1..], fuel);
        RunOutcome([Doc(docs[0].path, contents)] + rest.docs, ops + rest.ops, rest.failed)
      case other => RunOutcome(docs, other.ops, Some(other))
  }

  // ---------------------------------------------------------------------------
  // Properties

  /** The `srcset` value the loop builds is the candidates joined with ",". */
  lemma {:induction false} AppendCandidatesJoin(acc: string, comma: string, name: string, ext: string, ws: seq<nat>)
    ensures |ws| == 0 ==> AppendCandidates(acc, comma, name, ext, ws) == acc
    ensures |ws| > 0 ==> AppendCandidates(acc, comma, name, ext, ws) == acc + comma + Join(Candidates(name, ext, ws), ",")
    decreases |ws|
  {
    if |ws| > 0 {
      var first := acc + comma + Candidate(name, ext, ws[0]);
      AppendCandidatesJoin(first, ",", name, ext, ws[1..]);
      var cs := Candidates(name, ext, ws);
      assert cs[1..] == Candidates(name, ext, ws[1..]);
      if |ws| > 1 {
        assert Join(cs, ",") == cs[0] + "," + Join(cs[1..], ",");
      }
    }
  }

  /** `srcset` lists `B_W.E Ww` for every width, in order, separated by single commas. */
  lemma SrcsetIsJoin(name: string, ext: string, ws: seq<nat>)
    ensures SrcsetValue(name, ext, ws) == Join(Candidates(name, ext, ws), ",")
  {
    AppendCandidatesJoin("", "", name, ext, ws);
  }

  lemma NoCommaInNumber(n: nat)
    ensures ',' !in NatToString(n)
  {
    var t := NatToString(n);
    assert forall i :: 0 <= i < |t| ==> t[i] != ',';
  }

  /**
   * Splitting `srcset` at its commas gives back exactly the candidates, one per
   * width: no comma leads, trails or doubles (the base name and the extension
   * hold no comma).
   */
  lemma SrcsetSplits(name: string, ext: string, ws: seq<nat>)
    requires ',' !in name && ',' !in ext && |ws| > 0
    ensures Split(SrcsetValue(name, ext, ws), ',') == Candidates(name, ext, ws)
  {
    var cs := Candidates(name, ext, ws);
    forall i | 0 <= i < |cs|
      ensures ',' !in cs[i]
    {
      var w := NatToString(ws[i]);
      NoCommaInNumber(ws[i]);
      assert cs[i] == name + "_" + w + "." + ext + " " + w + "w";
    }
    SrcsetIsJoin(name, ext, ws);
    SplitJoin(cs, ',');
  }

  /**
   * The tag's `srcset` attribute holds exactly the candidates joined by
   * commas, and the `sizes` attribute with the rule closes the tag.
   */
  lemma TagSrcset(c: Config, title: string, name: string, ext: string)
    ensures var tag := ImgTag(c, title, name, ext);
      var k := |SrcPart(c, name, ext)| + |"title=\""| + |title| + |"\" srcset=\""|;
      var n := |SrcsetValue(name, ext, c.sizes)|;
      && k + n <= |tag|
      && tag[..k] == SrcPart(c, name, ext) + "title=\"" + title + "\" srcset=\""
      && tag[k..k + n] == Join(Candidates(name, ext, c.sizes), ",")
      && tag[k + n..] == "\" sizes=\"" + c.rule + "\"/>"
  {
    var head := SrcPart(c, name, ext) + "title=\"" + title + "\" srcset=\"";
    var value := SrcsetValue(name, ext, c.sizes);
    var tail := "\" sizes=\"" + c.rule + "\"/>";
    assert ImgTag(c, title, name, ext) == head + value + tail;
    SrcsetIsJoin(name, ext, c.sizes);
  }

  lemma TagStartsWithSrc(c: Config, title: string, name: string, ext: string)
    ensures StartsWith(ImgTag(c, title, name, ext), SrcPart(c, name, ext))
  {
    var src := SrcPart(c, name, ext);
    var rest := "title=\"" + title + "\" srcset=\"" + SrcsetValue(name, ext, c.sizes) + "\" sizes=\"" + c.rule + "\"" + "/>";
    assert ImgTag(c, title, name, ext) == src + rest;
    StartsWithAppend(src, src, rest);
  }

  lemma FigureStartsWith(tag: string, prefix: string, caption: string)
    requires StartsWith(tag, prefix)
    ensures StartsWith(Figure(tag, caption), "<figure>" + prefix)
  {
    var close := "<figcaption>" + caption + "</figcaption></figure>";
    StartsWithBoth("<figure>", tag, prefix);
    StartsWithAppend("<figure>" + tag, "<figure>" + prefix, close);
    assert "<figure>" + tag + close == Figure(tag, caption);
  }

  /** The markup opens with the `src` attribute, after `<figure>` when there is a caption. */
  lemma MarkupStartsWithSrc(c: Config, title: string, name: string, ext: string, caption: string)
    requires c.attribution
    ensures var lead := if caption == "" then "" else "<figure>";
      StartsWith(Markup(c, title, name, ext, caption), lead + SrcPart(c, name, ext))
  {
    TagStartsWithSrc(c, title, name, ext);
    if caption != "" {
      FigureStartsWith(ImgTag(c, title, name, ext), SrcPart(c, name, ext), caption);
    } else {
      assert "" + SrcPart(c, name, ext) == SrcPart(c, name, ext);
    }
  }

  /** The `src` of the tag names the variant of the default width, which falls back to the first configured width. */
  lemma SrcIsDefaultVariant(o: Options, title: string, name: string, ext: string, caption: string)
    requires (o.defaultSize.Some? && o.defaultSize.value != 0) || |o.sizes| > 0
    ensures var d := if o.defaultSize.Some? && o.defaultSize.value != 0 then o.defaultSize.value else o.sizes[0];
      var lead := if caption == "" then "" else "<figure>";
      StartsWith(Markup(Configure(o), title, name, ext, caption), lead + "<img src=\"" + name + "_" + NatToString(d) + "." + ext + "\" ")
  {
    var c := Configure(o);
    MarkupStartsWithSrc(c, title, name, ext, caption);
    var d := if o.defaultSize.Some? && o.defaultSize.value != 0 then o.defaultSize.value else o.sizes[0];
    assert c.defaultSize == NatToString(d);
    var lead := if caption == "" then "" else "<figure>";
    assert lead + SrcPart(c, name, ext) == lead + "<img src=\"" + name + "_" + NatToString(d) + "." + ext + "\" ";
  }

  /** The width and the times decide one width's work as the staleness rules say. */
  lemma WidthOpsFollowDecision(site: Site, file: string, name: string, ext: string, srcWhen: int, w: nat)
    ensures var sized := VariantName(name, NatToString(w), ext);
      var sizedWhen := VariantTime(When(site, PathIn(site.sourceDir, file, sized)));
      var buildWhen := DestTime(When(site, PathIn(site.destDir, file, sized)));
      var ops := WidthOps(site, file, name, ext, srcWhen, w);
      && |ops| <= 1
      && (|ops| == 1 <==> srcWhen > sizedWhen || sizedWhen > buildWhen)
      && (|ops| == 1 ==> (ops[0].Resize? || ops[0].ResizeThenCopy? <==> srcWhen > sizedWhen))
      && (|ops| == 1 ==> (Awaited(ops[0]) <==> sizedWhen > buildWhen))
      && (|ops| == 1 ==> ops[0].variant == PathIn(site.sourceDir, file, sized))
  {
  }

  /** The paths of the variants of the widths, in order. */
  function VariantPaths(site: Site, file: string, name: string, ext: string, ws: seq<nat>): (ps: seq<string>)
    ensures |ps| == |ws|
    decreases |ws|
  {
    if |ws| == 0 then []
    else [PathIn(site.sourceDir, file, VariantName(name, NatToString(ws[0]), ext))] + VariantPaths(site, file, name, ext, ws[1..])
  }

  /** Every scheduled operation concerns the variant of one of the configured widths. */
  lemma {:induction false} ReferenceOpsVariants(site: Site, file: string, name: string, ext: string, srcWhen: int, ws: seq<nat>)
    ensures forall op :: op in ReferenceOps(site, file, name, ext, srcWhen, ws) ==> op.variant in VariantPaths(site, file, name, ext, ws)
    decreases |ws|
  {
    if |ws| > 0 {
      ReferenceOpsVariants(site, file, name, ext, srcWhen, ws[1..]);
      var first := WidthOps(site, file, name, ext, srcWhen, ws[0]);
      var rest := ReferenceOps(site, file, name, ext, srcWhen, ws[1..]);
      var ops := first + rest;
      var paths := VariantPaths(site, file, name, ext, ws);
      var later := VariantPaths(site, file, name, ext, ws[1..]);
      assert paths == [paths[0]] + later;
      assert ops == ReferenceOps(site, file, name, ext, srcWhen, ws);
      forall op | op in ops
        ensures op.variant in paths
      {
        if op in first {
          WidthOpsFollowDecision(site, file, name, ext, srcWhen, ws[0]);
          assert op.variant == paths[0];
        } else {
          assert op in rest;
        }
      }
    }
  }

  /** A document without image references comes back unchanged, with no work scheduled. */
  lemma NoReferenceUnchanged(c: Config, site: Site, file: string, contents: string, fuel: nat)
    requires AllMatches(contents, 0) == [] && fuel > 0
    ensures ProcessFile(c, site, file, contents, fuel) == Rewritten(contents, [])
  {
  }

  /** References to external images are skipped: no markup, no work. */
  lemma {:induction false} ExternalOnlyUnchanged(c: Config, site: Site, file: string, contents: string, from: nat, ops: seq<Op>, fuel: nat)
    requires forall i :: 0 <= i < |AllMatches(contents, from)| ==> External(AllMatches(contents, from)[i])
    requires fuel > |AllMatches(contents, from)|
    ensures ProcessFrom(c, site, file, contents, from, ops, fuel) == Rewritten(contents, ops)
    decreases |contents| + 1 - from
  {
    match Exec(contents, from)
    case None =>
    case Some(m) =>
      var rest := AllMatches(contents, m.end);
      assert AllMatches(contents, from) == [m] + rest;
      assert AllMatches(contents, from)[0] == m;
      forall i | 0 <= i < |rest|
        ensures External(rest[i])
      {
        assert rest[i] == AllMatches(contents, from)[i + 1];
      }
      ExternalOnlyUnchanged(c, site, file, contents, m.end, ops, fuel - 1);
  }

  /** A local reference whose source image is missing stops the document: no markup and no work for it. */
  lemma MissingSourceStops(c: Config, site: Site, file: string, contents: string, from: nat, ops: seq<Op>, fuel: nat, m: ImageRef)
    requires fuel > 0 && Exec(contents, from) == Some(m) && !External(m)
    requires PathIn(site.sourceDir, file, m.name + "." + m.ext) !in site.mtimes
    ensures ProcessFrom(c, site, file, contents, from, ops, fuel) == MissingSource(PathIn(site.sourceDir, file, m.name + "." + m.ext), ops)
  {
  }

  /**
   * A local reference whose text does not occur earlier in the document is
   * replaced in place by its markup (when the markup holds no `$`, which
   * `replace` would expand), its widths' work is appended, and the scan goes on
   * from the end of the reference.
   */
  lemma LocalReferenceRewritten(c: Config, site: Site, file: string, contents: string, from: nat, ops: seq<Op>, fuel: nat, m: ImageRef)
    requires fuel > 0 && Exec(contents, from) == Some(m) && !External(m)
    requires PathIn(site.sourceDir, file, m.name + "." + m.ext) in site.mtimes
    requires forall k :: 0 <= k < m.start ==> !OccursAt(contents, contents[m.start..m.end], k)
    requires '$' !in Markup(c, m.title, m.name, m.ext, CaptionText(m.caption))
    ensures var markup := Markup(c, m.title, m.name, m.ext, CaptionText(m.caption));
      var srcWhen := site.mtimes[PathIn(site.sourceDir, file, m.name + "." + m.ext)];
      ProcessFrom(c, site, file, contents, from, ops, fuel)
      == ProcessFrom(c, site, file, contents[..m.start] + markup + contents[m.end..], m.end,
                     ops + ReferenceOps(site, file, m.name, m.ext, srcWhen, c.sizes), fuel - 1)
  {
    var markup := Markup(c, m.title, m.name, m.ext, CaptionText(m.caption));
    LocalStep(c, site, file, contents, from, ops, fuel, m);
    ReplaceReference(contents, m.start, m.end, markup);
  }

  lemma ReplaceReference(contents: string, start: nat, end: nat, markup: string)
    requires start <= end <= |contents|
    requires forall k :: 0 <= k < start ==> !OccursAt(contents, contents[start..end], k)
    requires '$' !in markup
    ensures ReplaceFirst(contents, contents[start..end], markup) == contents[..start] + markup + contents[end..]
  {
    ReplaceFirstAt(contents, contents[start..end], markup, start);
  }

  lemma LocalStep(c: Config, site: Site, file: string, contents: string, from: nat, ops: seq<Op>, fuel: nat, m: ImageRef)
    requires fuel > 0 && Exec(contents, from) == Some(m) && !External(m)
    requires PathIn(site.sourceDir, file, m.name + "." + m.ext) in site.mtimes
    ensures var markup := Markup(c, m.title, m.name, m.ext, CaptionText(m.caption));
      var srcWhen := site.mtimes[PathIn(site.sourceDir, file, m.name + "." + m.ext)];
      ProcessFrom(c, site, file, contents, from, ops, fuel)
      == ProcessFrom(c, site, file, ReplaceFirst(contents, contents[m.start..m.end], markup), m.end,
                     ops + ReferenceOps(site, file, m.name, m.ext, srcWhen, c.sizes), fuel - 1)
  {
  }

  /** The document as processing leaves it: rewritten, or as it was when processing did not finish. */
  function Processed(c: Config, site: Site, d: Doc, fuel: nat): Doc {
    match ProcessFile(c, site, d.path, d.contents, fuel)
    case Rewritten(contents, _) => Doc(d.path, contents)
    case _ => d
  }

  /** Each document's result depends on that document alone. */
  lemma {:induction false} RunPerDocument(c: Config, site: Site, docs: seq<Doc>, fuel: nat, i: nat)
    requires Run(c, site, docs, fuel).failed.None? && i < |docs|
    ensures ProcessFile(c, site, docs[i].path, docs[i].contents, fuel).Rewritten?
    ensures Run(c, site, docs, fuel).docs[i] == Processed(c, site, docs[i], fuel)
    decreases |docs|
  {
    if i > 0 {
      RunPerDocument(c, site, docs[1..], fuel, i - 1);
      assert docs[1..][i - 1] == docs[i];
    }
  }

  /**
   * A run stops at the first document that fails: the documents before it
   * are rewritten, it and the ones after it are left as they were.
   */
  lemma {:induction false} RunStopsAtFailure(c: Config, site: Site, docs: seq<Doc>, fuel: nat, j: nat)
    requires j < |docs|
    requires forall i :: 0 <= i < j ==> ProcessFile(c, site, docs[i].path, docs[i].contents, fuel).Rewritten?
    requires !ProcessFile(c, site, docs[j].path, docs[j].contents, fuel).Rewritten?
    ensures var r := Run(c, site, docs, fuel);
      && r.failed == Some(ProcessFile(c, site, docs[j].path, docs[j].contents, fuel))
      && r.docs[j..] == docs[j..]
      && forall i :: 0 <= i < j ==> r.docs[i] == Processed(c, site, docs[i], fuel)
    decreases j
  {
    if j > 0 {
      var tail := docs[1..];
      forall i | 0 <= i < j - 1
        ensures ProcessFile(c, site, tail[i].path, tail[i].contents, fuel).Rewritten?
      {
        assert tail[i] == docs[i + 1];
      }
      assert tail[j - 1] == docs[j];
      RunStopsAtFailure(c, site, tail, fuel, j - 1);
      var r := Run(c, site, docs, fuel);
      var rest := Run(c, site, tail, fuel);
      assert r.docs == [Processed(c, site, docs[0], fuel)] + rest.docs;
      assert r.docs[j..] == rest.docs[j - 1..];
      assert docs[j..] == tail[j - 1..];
      forall i | 0 <= i < j
        ensures r.docs[i] == Processed(c, site, docs[i], fuel)
      {
        if i > 0 {
          assert r.docs[i] == rest.docs[i - 1] && docs[i] == tail[i - 1];
        }
      }
    }
  }
}
