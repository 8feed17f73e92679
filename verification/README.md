# keystrokecountdown build core, in Dafny

This project models the text-processing core of the static blog build of
keystrokecountdown.com. The build is a Metalsmith pipeline written in JavaScript.
The model covers these parts:

- **srcset** (`srcset.js`): rewrites every local JPEG/PNG image reference in a
  Markdown document into an `<img>` tag with a `srcset` attribute. The tag lists
  one resized variant per configured width. The step also schedules the resizes
  and copies those variants need, decided from three modification times.
  Modules: `ImageScan` (the image regex and its `g`-flag scan), `Staleness`
  (the per-width decision) and `Srcset` (options, markup, the rewrite loop and
  the run over all documents).
- **Math splitting** (`src/js/index.js`): `findEndOfMath`, `splitAtDelimiters`
  and `splitWithDelimiters` cut a text into text and math pieces at
  `$…$`-style delimiter pairs. Module `MathSplit`.
- **Fence renderers** (`consoleFence.js`, `promptFence.js`, `codeFence.js`,
  `escapeHtml.js`): the Remarkable renderers for fenced code blocks, the two
  custom `console` and `prompt` fences, and HTML escaping. Modules
  `ConsoleFence`, `PromptFence`, `CodeFence` and `EscapeHtml`.
- **Build helpers** (`build.js`): `relativeUrl` and `updateMetadata` (module
  `Pages`), `createSnippet` (module `Snippet`) and `deleteDrafts` (module
  `Drafts`).

The shared modules are:

- `Text`: the JavaScript string operations used, such as `split`, `join`,
  `indexOf`, `slice`, `replace` with a string pattern, and the `\s` trim and
  split regexes.
- `PosixPath`: Node's `path.normalize`, `path.join`, `path.dirname` and
  `path.extname`.
- `Wrappers`: `Option` and `Result`.

Strings are `seq<char>`. Where the source compares a JavaScript `.length`,
the model counts UTF-16 code units (`Text.Utf16Length`): a character beyond the
Basic Multilingual Plane counts twice. The file system is a map from path to modification
time, and time stamps are integers. The scheduled resizes and copies are
returned as a list of operations in the order the promises are created. The
front matter of a page is a record of optional fields. The date formatter is a
function parameter.

Points where the code behaves differently from what a reader might expect, and
which the model keeps as written:

- The copy decision for a width compares the variant's modification time as it
  was *before* this run's resize with the published copy's time: the variant's
  time is read once, before the resize is scheduled (`srcset.js:71`), and the
  copy test reuses it (`srcset.js:83`). So a source edited after
  its variant was published gets a new variant, but the stale published copy
  stays until the next run (`Staleness.StalePublishedCopyKept`,
  `Staleness.OneRunNotEnough`).
- Only copy promises go into the awaited list. A resize that is not followed by
  a copy is not awaited (`Staleness.Schedule`, `Awaited`).
- `attribution` is `options.attribution || true`, which is always true, so a
  non-empty caption always produces a `<figure>` (`Srcset.Configure`).

## Model

| member | source | states |
|---|---|---|
| Srcset.Configure | srcset.js:27-32 | `defaultSize` falls back to the first width when it is absent or 0, and is `undefined` when there are no widths. `rule` falls back to `100vw` when absent or empty. `attribution` is always on. |
| Srcset.Candidates | srcset.js:68-79 | One candidate `B_W.E Ww` per configured width, in the configured order. |
| Srcset.AppendCandidatesJoin | srcset.js:66-79 | The loop's comma-prefixed appending builds the candidates joined with `,`. |
| Srcset.SrcsetIsJoin | srcset.js:60-61 | The `srcset` value is exactly the candidates joined with single commas. |
| Srcset.SrcsetSplits | srcset.js:68-79 | Splitting `srcset` at commas gives back the candidates, one per width, when the name and extension hold no comma. |
| Srcset.FigureParts | srcset.js:94-96 | The figure opens with `<figure>`, closes with `</figcaption></figure>`, and the tag and the caption can be sliced back out of it at fixed offsets. |
| Srcset.MarkupParts | srcset.js:91-99 | With attribution on and a non-empty caption, the markup is `<figure>` followed by the tag, `<figcaption>`, the caption and the closing tags, and tag and caption slice back out. Otherwise the markup is the bare tag. |
| Srcset.TagSrcset | srcset.js:60-61 | The tag is the `src` and `title` attributes, then a `srcset` attribute whose value is the candidates joined with commas, then the `sizes` rule, and each part slices back out. |
| Srcset.MarkupStartsWithSrc | srcset.js:60-61 | The markup opens with the `src` attribute, after `<figure>` when there is a caption. |
| Srcset.SrcIsDefaultVariant | srcset.js:30 | The `src` names the variant of the default width, or of the first width when no default is given. |
| Srcset.ReferenceOps | srcset.js:68-89 | At most one operation per configured width. |
| Srcset.WidthOpsFollowDecision | srcset.js:69-88 | The work scheduled for one width is what the staleness decision orders for that width's variant, source and published paths. |
| Srcset.ReferenceOpsVariants | srcset.js:68-89 | Every scheduled operation concerns the variant of one of the configured widths. |
| Srcset.NoReferenceUnchanged | srcset.js:49-104 | A document with no image reference comes back unchanged and schedules no work. |
| Srcset.ExternalOnlyUnchanged | srcset.js:56-58 | References whose name starts with `http` are skipped: the text is unchanged and no work is scheduled. |
| Srcset.MissingSourceStops | srcset.js:63-65 | A local reference whose source image does not exist stops the document with that path. |
| Srcset.LocalReferenceRewritten | srcset.js:60-101 | A local reference is replaced in place by its markup, its widths' work is appended, and the scan continues from the end of the match. |
| Srcset.ReplaceReference | srcset.js:101 | `contents.replace(matched, imgrep)` replaces the first occurrence of the matched text. When that is the match itself and the markup holds no `$`, the match's span is replaced. |
| Srcset.Run | srcset.js:107-111 | The run returns one document per input document. |
| Srcset.RunPerDocument | srcset.js:107-111 | In a run that does not fail, each document's result depends only on that document. |
| Srcset.RunStopsAtFailure | srcset.js:107-111 | The first failing document stops the run: earlier documents are rewritten, and it and later ones are unchanged. |
| Staleness.Schedule | srcset.js:72-88 | At most one operation per width. There is one exactly when a resize or copy is needed, and it targets the variant. A copy after a resize is chained on it. Only copies are awaited. |
| Staleness.FreshImageCopied | srcset.js:71-83 | With no variant and no published copy, the variant is always copied. It is resized exactly when the source time is positive. |
| Staleness.UpToDateIdle | srcset.js:72-83 | A variant at least as new as its source, and published no earlier than it was made, needs no work. |
| Staleness.StalePublishedCopyKept | srcset.js:72-83 | When the source is newer than the variant and the published copy is no older than the variant, the variant is resized but not copied. |
| Staleness.AfterRun | srcset.js:72-87 | A run never changes the source's time. |
| Staleness.SettledStable | srcset.js:72-87 | A width with nothing to do stays as it is after another run. |
| Staleness.TwoRunsSettle | srcset.js:72-87 | A run later than every recorded time, followed by any later run, always leaves a width with nothing to do. |
| Staleness.OneRunNotEnough | srcset.js:72-87 | A concrete case where one run leaves work for the next. |
| ImageScan.LineEnd | srcset.js:45 | The reach of a `.*` from a position: the first line terminator at or after it, or the end. |
| ImageScan.TitleSearchSpec | srcset.js:45 | The greedy title group ends at a title end that works, and no larger title end within the line works. |
| ImageScan.ExecFound | srcset.js:49 | `exec` returns the match found at its own start position. |
| ImageScan.ExecLeftmost | srcset.js:49 | `exec` skips no match: none starts between `lastIndex` and what it returns, and none starts anywhere after `lastIndex` when it returns null. |
| ImageScan.MatchAtWellFormed | srcset.js:45 | A match spans exactly `![title](name.ext "caption")` as its groups spell it, the extension is `jpeg`, `jpg` or `png`, and the span holds no line terminator. |
| ImageScan.MatchAtTitle | srcset.js:45 | A match's title ends at the largest working title end on its line. |
| ImageScan.NoLaterMatchOnLine | srcset.js:45-49 | No match starts at or after the end of another match on the same line, because the greedy title would have absorbed it. |
| ImageScan.AllMatches | srcset.js:49 | The matches of one pass lie in order, without overlap, within the text. |
| ImageScan.AllMatchesAreMatches | srcset.js:49 | Every reference in a pass is the match at its own start. |
| ImageScan.MatchesOnDistinctLines | srcset.js:45-49 | Any two references found in one pass lie on different lines. |
| MathSplit.FindEnd | src/js/index.js:5-31 | A result other than -1 is a position at or after the start where the delimiter occurs. |
| MathSplit.FindEndStops | src/js/index.js:13-28 | A found end is a position on the walk where the delimiter occurs with the brace level at or below 0. |
| MathSplit.FindEndFirst | src/js/index.js:13-28 | The walk returns the first such position, and -1 only when there is none. |
| MathSplit.EscapedNeverEnd | src/js/index.js:19-20 | The character after a backslash the walk reaches is never returned as the end of the math. |
| MathSplit.Scan | src/js/index.js:40-96 | The split of one text always ends with a text piece. |
| MathSplit.SplitTextFlatten | src/js/index.js:33-103 | Concatenating the pieces' source texts gives back the text that was split. |
| MathSplit.SplitTextDelimited | src/js/index.js:76-85 | Every math piece's source text is the left delimiter, its content and the right delimiter, and the piece carries the pair's display flag. |
| MathSplit.UnmatchedLeftStaysText | src/js/index.js:68-74 | When no right delimiter follows the first left delimiter, everything from that left delimiter on is the last text piece. |
| MathSplit.NoLeftOneText | src/js/index.js:44-58 | A text without the left delimiter stays one text piece. |
| MathSplit.SplitAtAppend | src/js/index.js:36-100 | Entries are handled one by one, in order: splitting a concatenation is concatenating the splits. |
| MathSplit.MathPassesThrough | src/js/index.js:97-98 | A math entry is passed through unchanged. |
| MathSplit.SplitAtFlatten | src/js/index.js:33-103 | Splitting a list of pieces keeps its source text. |
| MathSplit.SplitWithLast | src/js/index.js:105-114 | The pairs are applied in list order, and a missing `display` counts as false. |
| MathSplit.SplitWithFlatten | src/js/index.js:105-114 | However many pairs are applied, the pieces still spell out the text. |
| MathSplit.SplitWithDelimited | src/js/index.js:105-114 | Every math piece of the final split is delimited by one of the pairs and carries that pair's display flag. |
| EscapeHtml.UnescapeEscape | escapeHtml.js:4-11 | Decoding the four entities recovers the escaped text. |
| EscapeHtml.EscapeInjective | escapeHtml.js:11 | Different texts escape differently. |
| EscapeHtml.EscapeSafe | escapeHtml.js:1-11 | The output holds no `<`, `>` or `"`, and every `&` in it starts one of the four entities. |
| EscapeHtml.EscapePlain | escapeHtml.js:11 | Text without `&<>"` is unchanged. |
| EscapeHtml.EscapeAppend | escapeHtml.js:11 | Escaping distributes over concatenation, because the `g` flag replaces character by character. |
| EscapeHtml.EscapeNotIdempotent | escapeHtml.js:11 | Escaping twice escapes the `&` of an entity again. |
| EscapeHtml.EscapeKeeps | escapeHtml.js:11 | A character that is not special, not a lower-case letter and not `;` occurs in the output exactly when it occurs in the input. |
| ConsoleFence.Defaults | consoleFence.js:29-43 | With no arguments: no demo mode, prompt `%` and class `language-console`. |
| ConsoleFence.DemoSwitch | consoleFence.js:37-40 | Demo mode is on exactly when the first comma-separated argument is `-d`, which is then dropped. |
| ConsoleFence.DemoExample | consoleFence.js:37-43 | With arguments `-d,$` the prompt is `$` and the class stays `language-console`. |
| ConsoleFence.ColumnPerLine | consoleFence.js:27-66 | One prompt-column entry per line of the trimmed body, each showing the prompt or a blank. |
| ConsoleFence.CommandLinesPrompted | consoleFence.js:58-66 | Outside demo mode, a line gets the prompt exactly when it starts with the prompt. |
| ConsoleFence.CommandLine | consoleFence.js:58-61 | A command line shows, in a command span, the escaped text after the prompt and one more character. That text is safe and decodes back. |
| ConsoleFence.OutputLine | consoleFence.js:63-65 | Any other line outside demo mode is escaped: safe, and it decodes to the line. |
| ConsoleFence.DemoColumn | consoleFence.js:47-56 | In demo mode a line shows the prompt when the prompt is the only argument left after `-d` or the line is the first, and a blank prompt otherwise. |
| ConsoleFence.DemoVerbatim | consoleFence.js:50-57 | In demo mode the trimmed body appears verbatim after the prompt column. |
| ConsoleFence.SameLineCount | consoleFence.js:46-69 | The rendered block has exactly as many line breaks as the trimmed body. |
| PromptFence.DefaultWhenNoWords | promptFence.js:28-29 | A fence name alone gives the default attributes `data-prompt="%" data-filter="1"`. |
| PromptFence.WordsBecomeAttributes | promptFence.js:28-29 | Otherwise the attributes are the words after the fence name, joined by single spaces, and they split back into those words. |
| PromptFence.BodyEscaped | promptFence.js:27-31 | The body is the trimmed content escaped, safe and decodable, inside `<code>…</code></pre>`. |
| CodeFence.CustomDispatch | codeFence.js:20-23 | A registered fence name hands the block to that fence, whose output is returned as it is. |
| CodeFence.ConsoleBlocks | codeFence.js:20-22 | A `console` block registered to the console fence is that fence's rendering. |
| CodeFence.PlainBlockShape | codeFence.js:25-37 | Any other block is a `<pre>` element ending in `</code></pre>` and a line break. |
| CodeFence.NoParamsNoClass | codeFence.js:12-37 | Without params neither element has a class attribute. |
| CodeFence.ParamsClass | codeFence.js:25-26 | With params, both elements carry the class: the prefix and the params words joined by single spaces, which split back into the words. |
| CodeFence.EscapeFallback | codeFence.js:29-35 | With no highlighter, or one returning nothing, the body is the escaped content: safe and decodable. |
| CodeFence.HighlighterUsed | codeFence.js:30-32 | A highlighter's non-empty output is the body, unescaped. |
| Pages.RelativeUrl | build.js:279-283 | The relative URL is rooted. |
| Pages.PageUrl | build.js:280-282 | For a `.md` or `.ipynb` source, the first occurrence of the extension becomes `.html`, and an ordinary path gets one leading `/`. |
| Pages.OtherUrl | build.js:279-283 | Any other ordinary path keeps its name and is rooted. |
| Pages.JoinedAbsoluteUrlLosesSlash | build.js:295 | The absolute URL as written collapses the scheme's `//` to `/`. |
| Pages.AbsoluteUrlKeepsScheme | build.js:295 | The intended absolute URL keeps the scheme's `//` and ends with the page URL. |
| Pages.MetadataUrls | build.js:292-296 | The relative URL is the page's rooted URL, and the RSS `url` repeats it. |
| Pages.MetadataAbsoluteUrl | build.js:295 | As written, the page's absolute URL is `path.join(site.url, url)`: for a site `scheme//host` and page `/q` it is `scheme/host/q`, with one slash after the scheme. |
| Pages.CorrectedMetadataUrls | build.js:292-296 | The corrected page differs from the written one only in its absolute URL, which is the site URL followed by the rooted page URL. |
| Pages.MetadataDefaults | build.js:298-306 | A given author is kept, and an absent one becomes the site author. The page is a draft exactly when its flag is true. A page that is not a draft keeps its title and its tags, and absent tags become empty. |
| Pages.DraftMarked | build.js:302-306 | A draft's title gets `[DRAFT] ` in front (`undefined` when absent), and its tags split into the given ones followed by `DRAFT`. |
| Pages.DraftTagsSplit | build.js:304-305 | Appending `,DRAFT` (or `DRAFT` to an empty list) adds exactly one tag at the end. |
| Pages.MetadataDates | build.js:308-316 | Without a date, the date and formatted date are empty. With one, the formatted date is the formatter's output. The post date repeats the date. |
| Pages.RootedImageKept | build.js:318-319 | An absent, empty or rooted image is left as it is. |
| Pages.RelativeImageRooted | build.js:318-322 | Any relative image becomes a rooted URL without spaces. |
| Pages.ImageUrlBeside | build.js:319-321 | An ordinary image beside the page `/d/name` becomes `/d/` followed by the image with every space written `%20`. |
| Pages.ImageBesidePage | build.js:318-322 | The page's relative image is replaced by `/d/` followed by the image with every space written `%20`. |
| Pages.SpacedImageEncoded | build.js:321 | The image `a b` beside the page `/d/name` becomes `/d/a%20b`. |
| Snippet.ParagraphPrefix | build.js:341 | The first paragraph is a prefix without a blank line, and it is the whole text or is followed by one. |
| Snippet.LinkAtMatches | build.js:341 | A link match has the `[…](…)` shape within its line, and no longer match starts at the same `[`, because both groups are greedy. |
| Snippet.LinkAtNone | build.js:341 | No match at a `[` means nothing of the link's shape starts there. |
| Snippet.NoBracketKept | build.js:341 | Text without `[` is left as it is. |
| Snippet.LinkReplaced | build.js:341 | A line that is exactly one link, whose text and target stay on the line and whose target holds no `]` or `)`, followed by lines holding no `[`, becomes the link text followed by those lines. |
| Snippet.SplitGapsWords | build.js:342 | No word of `split(/[ \n]+/)` holds a space or a line feed. |
| Snippet.SpacedWords | build.js:346-351 | Splitting the spaced words gives them back, after the empty word the leading space makes. |
| Snippet.TakeWord | build.js:346-351 | Taking one more word appends it after a space, and when it fits, the text stays under the maximum length in UTF-16 code units. |
| Snippet.TakeWords | build.js:346-351 | The loop takes a prefix of the words, and every word taken fit when it was added, measured in UTF-16 code units. The text stays under the maximum unless no word was taken, and the next word would not fit. |
| Snippet.CreateSnippet | build.js:332-357 | The snippet is the longest prefix of words in which each word fit, in UTF-16 code units, when it was added. The suffix follows exactly when words are left, and a blank line ends the snippet. |
| Snippet.SnippetKeepsWords | build.js:346-351 | The snippet's words are the non-empty words it took, in order: no word is cut. |
| Drafts.PruneSpec | build.js:460-468 | Visiting distinct keys removes exactly the drafts among them, leaves other sources unchanged, and appends the drafts' directories in key order. |
| Drafts.DraftDirsMembers | build.js:462-464 | A recorded directory belongs to a draft, and every draft's directory is recorded. |
| Drafts.DevelopmentKeepsDrafts | build.js:456 | Outside production nothing is removed or recorded. |
| Drafts.ProductionDropsDrafts | build.js:455-471 | A production build keeps exactly the non-draft sources, unchanged. After the earlier entries it records the directory of every removed draft and nothing else. |
| PosixPath.Normalize | build.js:282 | `path.normalize` keeps a leading `/`. |
| PosixPath.Extname | build.js:280 | `path.extname` is empty or a `.` followed by text without `.` or `/`. |
| PosixPath.RootClean | build.js:282 | `path.join("/", p)` only puts `/` in front of an ordinary relative path. |
| PosixPath.DirnameOfName | build.js:320 | `path.dirname("/d/name")` is `/d`. |
| PosixPath.ResolveAppend | build.js:282 | Normalization resolves segment by segment, so a concatenation resolves in two stages. |
| Text.TrimSpec | consoleFence.js:27 | `replace(/(^\s+\|\s+$)/g, '')` removes only leading and trailing whitespace and keeps the middle. |
| Text.TrimEnds | consoleFence.js:27 | The trimmed text neither starts nor ends with whitespace. |
| Text.JoinSplit | consoleFence.js:28 | Joining a split with its separator gives the text back. |
| Text.SplitJoin | consoleFence.js:69 | Splitting a join gives the pieces back when no piece holds the separator. |
| Text.CountSplit | consoleFence.js:28 | A split has one piece more than the text has separators. |
| Text.SplitSpacesWords | consoleFence.js:29 | No piece of `split(/\s+/g)` holds whitespace. |
| Text.ReplaceFirstAt | srcset.js:101 | When a pattern first occurs at `i`, a `$`-free replacement takes exactly its place. |
| Text.ReplaceAllChar | build.js:321 | `replace(/ /g, "%20")` leaves no space, and leaves a text without spaces as it is. |
| Text.ReplaceAllCharAppend | build.js:321 | The `g` replacement distributes over concatenation. |
| Text.ReplaceAllCharOne | build.js:321 | A single character becomes the replacement exactly when it is the one replaced. |
| Text.ReplaceAllCharLength | build.js:321 | The result is as long as the text with each occurrence swapped for the replacement. |
| Text.ReplaceAllCharBetween | build.js:321 | One occurrence between two stretches without it is the only thing replaced. |
| Text.Utf16Length | build.js:346 | `.length` counts between one and two code units per character. |
| Text.Utf16Append | build.js:346 | Code-unit lengths add up over concatenation. |
| Text.Utf16Plane | build.js:346 | Text within the Basic Multilingual Plane has one code unit per character. |

## Left out

- File I/O, `sharp` resizing, the promises and their completion, Metalsmith
  wiring, the KaTeX and DOM rendering of `index.js` and `console.log` are not
  modelled. Operations are returned as data, and times and file existence come
  in as a map.
- Srcset.ProcessFrom: the `while (re.exec(contents))` loop is bounded by a fuel
  parameter and stops with `OutOfFuel` when it runs out. The JavaScript loop
  continues at `lastIndex` of the old text while the text is rewritten, and
  whether it always ends is not evident.
- MathSplit.Scan: both delimiters empty is excluded, because for that pair the
  JavaScript loop never ends on a non-empty text.
- CodeFence.Words: without params the highlighter gets no words. In JavaScript
  it gets `undefined` as an extra argument. A highlighter's falsy result is
  modelled as the empty string.
- Pages.UpdateMetadata: `formatDate` is a parameter. Non-string titles and tags,
  and a truthy draft flag that is not a boolean, are not modelled.
- Pages.PageUrl: the extension is replaced at its first occurrence in the path,
  as `String.replace` does. So `a.md/b.md` becomes `a.html/b.md`. This is kept
  as written.
- ConsoleFence.RenderLine: the command after the prompt is sliced in
  characters, while `line.slice(prompt.length + 1)` slices UTF-16 code units.
  When the character right after the prompt lies beyond the Basic Multilingual
  Plane, the model drops that whole character, but JavaScript drops only its
  high surrogate and leaves a lone low surrogate in the command. Such a string
  has no `seq<char>` form.
- Text.Utf16Length: a Dafny `char` is a Unicode scalar value, so strings holding
  lone surrogates, which JavaScript allows, are not modelled.
- Snippet.CreateSnippet: the maximum length and suffix are parameters. The site
  uses 280 and `...` (`Snippet.MaxLength`, `Snippet.Suffix`).
- Snippet.LinkAt: the `/\[(.*)\]\(.*\)/g` pattern is greedy, so two links on
  one line are matched as one. This is kept as written.
- Drafts.DeleteDrafts: the module-level `drafts` list is passed in and
  returned. `Object.keys` order is a parameter, a list of distinct keys.
- The `removeOldFiles`, `deleteDraftFiles` and other plugins of `build.js` are
  not modelled.

## Findings

| source | as written | input that shows it | evidently intended | confidence | as-written member | corrected member |
|---|---|---|---|---|---|---|
| build.js:295 | `path.join(site.url, url)` normalizes the joined string, which collapses the `//` after the URL scheme | site URL `https://keystrokecountdown.com` and page `/index.html` give `https:/keystrokecountdown.com/index.html` | `site.url + url`, i.e. `https://keystrokecountdown.com/index.html` | not executed | Pages.MetadataAbsoluteUrl | Pages.CorrectedMetadataUrls |

`Pages.UpdateMetadata` keeps the code as written. `Pages.CorrectedMetadata` is the
same page with the intended absolute URL, and `Pages.AbsoluteUrlKeepsScheme`
states that URL for any scheme and host.
