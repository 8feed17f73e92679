/**
 * The fenced-code renderer (codeFence.js): a block whose first params word
 * names a registered custom fence is handed to that fence; any other block
 * becomes `<pre><code>` with a language class built from the params, holding
 * the highlighter's output, or the HTML-escaped content when there is no
 * highlighter or it returns nothing.
 */
module CodeFence {
  import opened Wrappers
  import opened Text
  import opened EscapeHtml
  import ConsoleFence
  import PromptFence

  /**
   * A registered custom fence: the console and prompt fences of this site,
   * or any other renderer, represented by what it returns for the block.
   */
  datatype Custom = ConsoleCustom | PromptCustom | OtherCustom(result: string)

  /**
   * The renderer options: the class prefix, and the highlighter, called with
   * the content and the params words. An empty result stands for every falsy
   * value a highlighter can return.
   */
  datatype Options = Options(langPrefix: string, highlight: Option<(string, seq<string>) -> string>)

  /** What a custom fence renders for the block. */
  function RunCustom(f: Custom, content: string, params: string): string {
    match f
    case ConsoleCustom => ConsoleFence.Render(content, params)
    case PromptCustom => PromptFence.Render(content, params)
    case OtherCustom(r) => r
  }

  /** The params words; without params the highlighter receives none. */
  function Words(params: string): seq<string> {
    if params == "" then [] else SplitSpaces(params)
  }

  /** The block's body: the highlighter's output when it gives one, the escaped content otherwise. */
  function Highlighted(content: string, words: seq<string>, opts: Options): string {
    match opts.highlight
    case None => Escape(content)
    case Some(h) => if h(content, words) != "" then h(content, words) else Escape(content)
  }

  /** The class attribute: empty without params, else the prefix and the params words. */
  function ClassAttr(params: string, opts: Options): string {
    if params == "" then "" else " class=\"" + opts.langPrefix + Join(SplitSpaces(params), " ") + "\""
  }

  const Close: string := "</code></pre>\n"

  /** Everything before the body of a block that is not handed to a custom fence. */
  function Opening(params: string, opts: Options): string {
    "<pre" + ClassAttr(params, opts) + "><code" + ClassAttr(params, opts) + ">"
  }

  /** The fence named by the params, if it is registered. */
  predicate IsCustom(params: string, customs: map<string, Custom>) {
    params != "" && SplitSpaces(params)[0] in customs
  }

  /** The rendered block. */
  function Render(content: string, params: string, opts: Options, customs: map<string, Custom>): string {
    if IsCustom(params, customs) then RunCustom(customs[SplitSpaces(params)[0]], content, params)
    else Opening(params, opts) + Highlighted(content, Words(params), opts) + Close
  }

  // ---------------------------------------------------------------------------
  // Properties

  /** A registered fence name hands the block to that fence, whose output is returned as it is. */
  lemma CustomDispatch(content: string, params: string, opts: Options, customs: map<string, Custom>)
    requires params != "" && SplitSpaces(params)[0] in customs
    ensures Render(content, params, opts, customs) == RunCustom(customs[SplitSpaces(params)[0]], content, params)
  {
  }

  /** With this site's registration, a ```` ```console ```` block is the console fence's rendering. */
  lemma ConsoleBlocks(content: string, params: string, opts: Options, customs: map<string, Custom>)
    requires params != "" && SplitSpaces(params)[0] == "console"
    requires "console" in customs && customs["console"] == ConsoleCustom
    ensures Render(content, params, opts, customs) == ConsoleFence.Render(content, params)
  {
  }

  /** Any other block is a `<pre><code>` pair ending the block with `</code></pre>` and a line break. */
  lemma PlainBlockShape(content: string, params: string, opts: Options, customs: map<string, Custom>)
    requires !IsCustom(params, customs)
    ensures var out := Render(content, params, opts, customs);
      StartsWith(out, "<pre") && EndsWith(out, Close)
  {
    var out := Render(content, params, opts, customs);
    assert out[..4] == "<pre";
  }

  /** Without params neither element has a class attribute. */
  lemma NoParamsNoClass(content: string, opts: Options, customs: map<string, Custom>)
    ensures StartsWith(Render(content, "", opts, customs), "<pre><code>")
  {
    var out := Render(content, "", opts, customs);
    assert out[..11] == "<pre><code>";
  }

  /**
   * With params, both elements carry the class: the prefix followed by the
   * params words separated by single spaces, so splitting the class at spaces
   * gives back the words.
   */
  lemma ParamsClass(content: string, params: string, opts: Options, customs: map<string, Custom>)
    requires params != "" && !IsCustom(params, customs)
    ensures var cls := " class=\"" + opts.langPrefix + Join(SplitSpaces(params), " ") + "\"";
      StartsWith(Render(content, params, opts, customs), "<pre" + cls + "><code" + cls + ">")
    ensures Split(Join(SplitSpaces(params), " "), ' ') == SplitSpaces(params)
  {
    var out := Render(content, params, opts, customs);
    assert out[..|Opening(params, opts)|] == Opening(params, opts);
    var words := SplitSpaces(params);
    SplitSpacesWords(params);
    forall i | 0 <= i < |words| ensures ' ' !in words[i] {
      assert forall j :: 0 <= j < |words[i]| ==> !IsSpace(words[i][j]);
    }
    SplitJoin(words, ' ');
  }

  /** The escape fallback: no highlighter, or an empty result, gives the content escaped, safe and decodable. */
  lemma EscapeFallback(content: string, params: string, opts: Options, customs: map<string, Custom>)
    requires !IsCustom(params, customs)
    requires opts.highlight.None? || opts.highlight.value(content, Words(params)) == ""
    ensures var out := Render(content, params, opts, customs); var k := |Opening(params, opts)|;
      && k <= |out| - |Close|
      && Safe(out[k..|out| - |Close|]) && Unescape(out[k..|out| - |Close|]) == content
  {
    var out := Render(content, params, opts, customs);
    assert out[|Opening(params, opts)|..|out| - |Close|] == Escape(content);
    EscapeSafe(content);
    UnescapeEscape(content);
  }

  /** A highlighter that returns something is trusted: its output is the body, unescaped. */
  lemma HighlighterUsed(content: string, params: string, opts: Options, customs: map<string, Custom>)
    requires !IsCustom(params, customs)
    requires opts.highlight.Some? && opts.highlight.value(content, Words(params)) != ""
    ensures var out := Render(content, params, opts, customs); var k := |Opening(params, opts)|;
      && k <= |out| - |Close|
      && out[k..|out| - |Close|] == opts.highlight.value(content, Words(params))
  {
    var out := Render(content, params, opts, customs);
    assert out[|Opening(params, opts)|..|out| - |Close|] == opts.highlight.value(content, Words(params));
  }
}
