/**
 * The page metadata the build script computes for every Markdown or notebook
 * source (build.js): the site-relative URL of the generated HTML page, the
 * defaults for author, draft flag and tags, the draft marking, the date
 * fields and the rewriting of a relative header image into a rooted URL.
 */
module Pages {
  import opened Wrappers
  import opened Text
  import opened PosixPath

  // ---------------------------------------------------------------------------
  // Page URLs

  /** Whether a source with this extension becomes an HTML page. */
  predicate IsPageSource(ext: string) {
    ext == ".md" || ext == ".ipynb"
  }

  /**
   * The site-relative URL of a source file: the first occurrence of a page
   * source's extension is replaced by `.html`, and the result is rooted and
   * normalized.
   */
  function RelativeUrl(file: string): (r: string)
    ensures |r| > 0 && r[0] == '/'
  {
    var ext := Extname(file);
    var u := if IsPageSource(ext) then ReplaceFirst(file, ext, ".html") else file;
    JoinPaths(["/", u])
  }

  /**
   * A page source's URL: the first occurrence of its extension in the path
   * (which need not be the final one) becomes `.html`, and an ordinary path
   * gets a single leading `/`.
   */
  lemma PageUrl(file: string, i: nat)
    requires IsPageSource(Extname(file))
    requires OccursAt(file, Extname(file), i)
    requires forall k :: 0 <= k < i ==> !OccursAt(file, Extname(file), k)
    requires Clean(file[..i] + ".html" + file[i + |Extname(file)|..])
    ensures RelativeUrl(file) == "/" + file[..i] + ".html" + file[i + |Extname(file)|..]
  {
    var ext := Extname(file);
    var u := file[..i] + ".html" + file[i + |ext|..];
    ReplaceFirstAt(file, ext, ".html", i);
    RenamedUrl(file, u);
  }

  lemma RenamedUrl(file: string, u: string)
    requires IsPageSource(Extname(file)) && ReplaceFirst(file, Extname(file), ".html") == u
    requires Clean(u)
    ensures RelativeUrl(file) == "/" + u
  {
    RootClean(u);
  }

  /** Any other ordinary path keeps its name and is rooted. */
  lemma OtherUrl(file: string)
    requires !IsPageSource(Extname(file)) && Clean(file)
    ensures RelativeUrl(file) == "/" + file
  {
    RootClean(file);
  }

  // ---------------------------------------------------------------------------
  // The page's absolute URL

  /**
   * The absolute URL as the build script computes it: the site URL and the
   * page URL joined as file paths.
   */
  function JoinedAbsoluteUrl(siteUrl: string, url: string): string {
    JoinPaths([siteUrl, url])
  }

  /**
   * Path joining normalizes the `//` after the URL scheme away: with the site
   * URL `https://keystrokecountdown.com` the page `/index.html` gets
   * `https:/keystrokecountdown.com/index.html`.
   */
  lemma JoinedAbsoluteUrlLosesSlash(scheme: string, host: string, q: string)
    requires Clean(scheme) && Clean(host) && Clean(q)
    ensures JoinedAbsoluteUrl(scheme + "//" + host, "/" + q) == scheme + "/" + host + "/" + q
    ensures JoinedAbsoluteUrl(scheme + "//" + host, "/" + q) != scheme + "//" + host + "/" + q
  {
    var site := scheme + "//" + host;
    var j := JoinArgs([site, "/" + q]);
    JoinArgsTwo(site, "/" + q);
    assert j == scheme + "/" + ("/" + host + "/" + ("/" + q));
    var A, H, Q := Split(scheme, '/'), Split(host, '/'), Split(q, '/');
    assert A[0] != "" && Q[|Q| - 1] != "";
    SiteSplit(scheme, host, q);
    SiteResolve(A, H, Q);
    var body := scheme + "/" + host + "/" + q;
    assert A + H + Q == Split(body, '/') by {
      SplitAround(scheme + "/" + host, q, '/');
      SplitAround(scheme, host, '/');
    }
    JoinSplit(body, '/');
    assert j[0] == scheme[0] != '/';
    assert j[|j| - 1] == q[|q| - 1];
    assert q[|q| - 1] != '/' by {
      if q[|q| - 1] == '/' {
        LastPieceEmpty(q);
      }
    }
    assert Segments(j) == body;
    NormalizeRelative(j, body);
    assert JoinedAbsoluteUrl(site, "/" + q) == Normalize(j);
  }

  lemma SiteSplit(scheme: string, host: string, q: string)
    ensures Split(scheme + "/" + ("/" + host + "/" + ("/" + q)), '/')
         == Split(scheme, '/') + ([""] + (Split(host, '/') + ([""] + Split(q, '/'))))
  {
    SplitAround(scheme, "/" + host + "/" + ("/" + q), '/');
    assert "/" + host + "/" + ("/" + q) == "" + "/" + (host + "/" + ("/" + q));
    SplitAround("", host + "/" + ("/" + q), '/');
    SplitAround(host, "/" + q, '/');
    assert "/" + q == "" + "/" + q;
    SplitAround("", q, '/');
  }

  lemma SiteResolve(a: seq<string>, h: seq<string>, q: seq<string>)
    requires forall i :: 0 <= i < |a| ==> a[i] != "" && a[i] != "." && a[i] != ".."
    requires forall i :: 0 <= i < |h| ==> h[i] != "" && h[i] != "." && h[i] != ".."
    requires forall i :: 0 <= i < |q| ==> q[i] != "" && q[i] != "." && q[i] != ".."
    ensures Resolve(a + ([""] + (h + ([""] + q))), true, []) == a + h + q
  {
    ResolveAppend(a, [""] + (h + ([""] + q)), true, []);
    ResolveOrdinary(a, true, []);
    assert [] + a == a;
    assert ([""] + (h + ([""] + q)))[1..] == h + ([""] + q);
    ResolveAppend(h, [""] + q, true, a);
    ResolveOrdinary(h, true, a);
    assert ([""] + q)[1..] == q;
    ResolveOrdinary(q, true, a + h);
  }

  /** Normalizing a relative path without a trailing separator gives its resolved segments joined. */
  lemma NormalizeRelative(j: string, body: string)
    requires |j| > 0 && j[0] != '/' && j[|j| - 1] != '/' && |body| > 0
    requires Segments(j) == body
    ensures Normalize(j) == body
  {
  }

  /** The absolute URL as evidently intended: the site URL followed by the rooted page URL. */
  function AbsoluteUrl(siteUrl: string, url: string): string {
    siteUrl + url
  }

  /** The intended absolute URL keeps the scheme's `//` and ends with the page URL. */
  lemma AbsoluteUrlKeepsScheme(scheme: string, host: string, file: string)
    ensures var r := AbsoluteUrl(scheme + "//" + host, RelativeUrl(file));
      && StartsWith(r, scheme + "//" + host + "/")
      && r[|scheme + "//" + host|..] == RelativeUrl(file)
  {
    var r := AbsoluteUrl(scheme + "//" + host, RelativeUrl(file));
    assert r[..|scheme + "//" + host| + 1] == scheme + "//" + host + "/";
  }

  // ---------------------------------------------------------------------------
  // Metadata

  /** The site settings the metadata draws on. */
  datatype Site = Site(url: string, author: string)

  /** The front matter fields the build reads; `None` is an absent field. */
  datatype FrontMatter = FrontMatter(
    title: Option<string>,
    author: Option<string>,
    draft: Option<bool>,
    tags: Option<string>,
    date: Option<string>,
    image: Option<string>)

  /** A page's metadata after the update. */
  datatype Page = Page(
    relativeUrl: string,
    absoluteUrl: string,
    url: string,
    title: Option<string>,
    author: string,
    draft: bool,
    tags: string,
    date: string,
    formattedDate: string,
    postDate: string,
    image: Option<string>)

  /** The marking of a draft's title; an absent title reads as `undefined`. */
  function DraftTitle(title: Option<string>): string {
    "[DRAFT] " + title.GetOr("undefined")
  }

  /** A draft's tags: the `DRAFT` tag appended to the comma-separated list. */
  function DraftTags(tags: string): string {
    (if |tags| > 0 then tags + "," else "") + "DRAFT"
  }

  /** Whether a header image is given relative to the page. */
  predicate IsRelativeImage(image: Option<string>) {
    image.Some? && image.value != "" && image.value[0] != '/'
  }

  /** A relative image rooted in the page's directory, with spaces written `%20`. */
  function ImageUrl(url: string, image: string): string {
    ReplaceAllChar(JoinPaths(["/", Dirname(url), image]), ' ', "%20")
  }

  /** The metadata of the source `file`; `formatDate` is the site's date formatter. */
  function UpdateMetadata(file: string, fm: FrontMatter, site: Site, formatDate: string -> string): Page {
    var url := RelativeUrl(file);
    var draft := fm.draft.GetOr(false);
    var tags := fm.tags.GetOr("");
    var date := fm.date.GetOr("");
    Page(
      url,
      JoinedAbsoluteUrl(site.url, url),
      url,
      if draft then Some(DraftTitle(fm.title)) else fm.title,
      fm.author.GetOr(site.author),
      draft,
      if draft then DraftTags(tags) else tags,
      date,
      if fm.date.Some? then formatDate(fm.date.value) else "",
      date,
      if IsRelativeImage(fm.image) then Some(ImageUrl(url, fm.image.value)) else fm.image)
  }

  /** The page URLs: the RSS `url` repeats the relative URL, which is rooted. */
  lemma MetadataUrls(file: string, fm: FrontMatter, site: Site, formatDate: string -> string)
    ensures var m := UpdateMetadata(file, fm, site, formatDate);
      && m.relativeUrl == RelativeUrl(file) && m.url == m.relativeUrl
      && |m.url| > 0 && m.url[0] == '/'
  {
  }

  /**
   * The absolute URL as the build computes it: for the site `scheme//host`
   * and the page `/q`, the path join leaves a single slash after the scheme.
   */
  lemma MetadataAbsoluteUrl(file: string, fm: FrontMatter, site: Site, formatDate: string -> string, scheme: string, host: string, q: string)
    requires site.url == scheme + "//" + host && Clean(scheme) && Clean(host)
    requires RelativeUrl(file) == "/" + q && Clean(q)
    ensures UpdateMetadata(file, fm, site, formatDate).absoluteUrl == scheme + "/" + host + "/" + q
  {
    JoinedAbsoluteUrlLosesSlash(scheme, host, q);
  }

  /** The metadata with the absolute URL as evidently intended: the site URL followed by the page URL. */
  function CorrectedMetadata(file: string, fm: FrontMatter, site: Site, formatDate: string -> string): Page {
    UpdateMetadata(file, fm, site, formatDate).(absoluteUrl := AbsoluteUrl(site.url, RelativeUrl(file)))
  }

  /**
   * The corrected metadata differs only in the absolute URL, which extends the
   * site URL, scheme and all, with a `/` and the rest of the page URL.
   */
  lemma CorrectedMetadataUrls(file: string, fm: FrontMatter, site: Site, formatDate: string -> string)
    ensures var m := UpdateMetadata(file, fm, site, formatDate); var c := CorrectedMetadata(file, fm, site, formatDate);
      && c.(absoluteUrl := m.absoluteUrl) == m
      && StartsWith(c.absoluteUrl, site.url + "/")
      && c.absoluteUrl[|site.url|..] == c.url
  {
    var c := CorrectedMetadata(file, fm, site, formatDate);
    assert c.absoluteUrl[..|site.url| + 1] == site.url + "/";
  }

  /** Front matter that is given wins; an absent author, draft flag or tag list takes the site author, `false` and no tags. */
  lemma MetadataDefaults(file: string, fm: FrontMatter, site: Site, formatDate: string -> string)
    ensures var m := UpdateMetadata(file, fm, site, formatDate);
      && (fm.author.None? ==> m.author == site.author)
      && (fm.author.Some? ==> m.author == fm.author.value)
      && (m.draft <==> fm.draft == Some(true))
      && (!m.draft ==> m.title == fm.title && m.tags == fm.tags.GetOr(""))
  {
  }

  /**
   * A draft is marked: its title gets the `[DRAFT] ` prefix, and `DRAFT`
   * becomes the last tag after the given ones.
   */
  lemma DraftMarked(file: string, fm: FrontMatter, site: Site, formatDate: string -> string)
    requires fm.draft == Some(true)
    ensures var m := UpdateMetadata(file, fm, site, formatDate); var given := fm.tags.GetOr("");
      && m.title == Some("[DRAFT] " + fm.title.GetOr("undefined"))
      && Split(m.tags, ',') == (if given == "" then [] else Split(given, ',')) + ["DRAFT"]
  {
    var given := fm.tags.GetOr("");
    assert UpdateMetadata(file, fm, site, formatDate).tags == DraftTags(given);
    DraftTagsSplit(given);
  }

  lemma DraftTagsSplit(given: string)
    ensures Split(DraftTags(given), ',') == (if given == "" then [] else Split(given, ',')) + ["DRAFT"]
  {
    SplitWhole("DRAFT", ',');
    if given != "" {
      SplitAround(given, "DRAFT", ',');
      assert DraftTags(given) == given + [','] + "DRAFT";
    } else {
      assert DraftTags(given) == "DRAFT";
    }
  }

  /** Without a date both date fields are empty; with one the formatted date is the formatter's and the post date repeats the date. */
  lemma MetadataDates(file: string, fm: FrontMatter, site: Site, formatDate: string -> string)
    ensures var m := UpdateMetadata(file, fm, site, formatDate);
      && m.postDate == m.date
      && (fm.date.None? ==> m.date == "" && m.formattedDate == "")
      && (fm.date.Some? ==> m.date == fm.date.value && m.formattedDate == formatDate(fm.date.value))
  {
  }

  /** An absent, empty or rooted image is left as it is. */
  lemma RootedImageKept(file: string, fm: FrontMatter, site: Site, formatDate: string -> string)
    requires !IsRelativeImage(fm.image)
    ensures UpdateMetadata(file, fm, site, formatDate).image == fm.image
  {
  }

  /** A relative image becomes a rooted URL without spaces. */
  lemma RelativeImageRooted(file: string, fm: FrontMatter, site: Site, formatDate: string -> string)
    requires IsRelativeImage(fm.image)
    ensures var img := UpdateMetadata(file, fm, site, formatDate).image;
      && img.Some? && ' ' !in img.value
      && |img.value| > 0 && img.value[0] == '/'
  {
    var url := RelativeUrl(file);
    var joined := JoinPaths(["/", Dirname(url), fm.image.value]);
    assert JoinArgs(["/", Dirname(url), fm.image.value])[0] == '/';
    ReplaceAllCharHead(joined, ' ', "%20");
  }

  /** An ordinary relative path joined under a rooted ordinary directory. */
  lemma RootedBeside(d: string, img: string)
    requires Clean(d) && Clean(img)
    ensures JoinPaths(["/", "/" + d, img]) == "/" + d + "/" + img
  {
    assert Split(d, '/')[0] != "" && Split(img, '/')[0] != "";
    var x := d + "/" + img;
    JoinArgsThree("/", "/" + d, img);
    ThreeSlashes(d, img);
    CleanJoin(d, img);
    RootedClean(3, x);
    assert JoinPaths(["/", "/" + d, img]) == Normalize(Slashes(3) + x);
  }

  lemma ThreeSlashes(d: string, img: string)
    ensures "/" + "/" + ("/" + d) + "/" + img == Slashes(3) + (d + "/" + img)
  {
    assert Slashes(3) == "///";
  }

  /** The image URL of an ordinary relative image of the page `/d/name` is `/d/image`, each space written `%20`. */
  lemma ImageUrlBeside(d: string, name: string, img: string)
    requires Clean(d) && ' ' !in d && |name| > 0 && '/' !in name
    requires Clean(img)
    ensures ImageUrl("/" + d + "/" + name, img) == "/" + d + "/" + ReplaceAllChar(img, ' ', "%20")
  {
    assert Split(d, '/')[0] != "" && Split(img, '/')[0] != "";
    assert d[|d| - 1] != '/' by {
      if d[|d| - 1] == '/' {
        LastPieceEmpty(d);
      }
    }
    DirnameOfName(d, name);
    RootedBeside(d, img);
    assert ' ' !in "/" + d + "/";
    ReplaceAllCharAppend("/" + d + "/", img, ' ', "%20");
  }

  /** A space in an image name is written `%20`: the image `a b` of the page `/d/name` is `/d/a%20b`. */
  lemma SpacedImageEncoded(d: string, name: string, a: string, b: string)
    requires Clean(d) && ' ' !in d && |name| > 0 && '/' !in name
    requires Clean(a + " " + b) && ' ' !in a && ' ' !in b
    ensures ImageUrl("/" + d + "/" + name, a + " " + b) == "/" + d + "/" + a + "%20" + b
  {
    ImageUrlBeside(d, name, a + " " + b);
    ReplaceAllCharBetween(a, b, ' ', "%20");
    assert "/" + d + "/" + (a + "%20" + b) == "/" + d + "/" + a + "%20" + b;
  }

  /**
   * An ordinary relative image of the page `/d/name` becomes `/d/image`: it is
   * placed beside the page, and every space in its name is written `%20`.
   */
  lemma ImageBesidePage(file: string, fm: FrontMatter, site: Site, formatDate: string -> string, d: string, name: string)
    requires RelativeUrl(file) == "/" + d + "/" + name
    requires Clean(d) && ' ' !in d && |name| > 0 && '/' !in name
    requires fm.image.Some? && Clean(fm.image.value)
    ensures UpdateMetadata(file, fm, site, formatDate).image == Some("/" + d + "/" + ReplaceAllChar(fm.image.value, ' ', "%20"))
  {
    var img := fm.image.value;
    assert Split(img, '/')[0] != "";
    assert IsRelativeImage(fm.image);
    ImageUrlBeside(d, name, img);
  }
}
