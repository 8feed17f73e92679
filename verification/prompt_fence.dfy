/**
 * The `prompt` custom fence (promptFence.js): the block body, trimmed and
 * HTML-escaped, inside a `<pre>` for Prism's command-line plugin; the words
 * after the fence name become attributes of the `<pre>`.
 */
module PromptFence {
  import opened Text
  import opened EscapeHtml

  /** The attributes used when the fence names none. */
  const DefaultAttributes: string := "data-prompt=\"%\" data-filter=\"1\""

  const Open: string := "<pre class=\"command-line language-console\""

  const Close: string := "</code></pre>"

  /** The words after the fence name, joined by single spaces, or the defaults when that is empty. */
  function Attributes(params: string): string {
    var joined := Join(SplitSpaces(params)[1..], " ");
    " " + (if joined == "" then DefaultAttributes else joined)
  }

  /** Everything before the escaped body. */
  function Prefix(params: string): string {
    Open + Attributes(params) + "><code>"
  }

  /** The rendered block. */
  function Render(content: string, params: string): string {
    Prefix(params) + Escape(Trim(content)) + Close
  }

  /** A fence name alone gives the default attributes. */
  lemma DefaultWhenNoWords(params: string)
    requires |SplitSpaces(params)| <= 1
    ensures Attributes(params) == " " + DefaultAttributes
  {
  }

  /** Otherwise the attributes are the remaining words, separated by single spaces. */
  lemma WordsBecomeAttributes(params: string)
    requires |SplitSpaces(params)| >= 2 && SplitSpaces(params)[1] != ""
    ensures Attributes(params) == " " + Join(SplitSpaces(params)[1..], " ")
    ensures Split(Attributes(params)[1..], ' ') == SplitSpaces(params)[1..]
  {
    var words := SplitSpaces(params)[1..];
    assert Join(words, " ") != "" by {
      if |words| > 1 {
        assert Join(words, " ") == words[0] + " " + Join(words[1..], " ");
      }
    }
    SplitSpacesWords(params);
    forall i | 0 <= i < |words| ensures ' ' !in words[i] {
      assert words[i] == SplitSpaces(params)[i + 1];
    }
    SplitJoin(words, ' ');
  }

  /**
   * The block opens the command-line `<pre>`, ends with `</code></pre>`, and
   * between them holds the trimmed body escaped: safe to embed, and it decodes
   * back to the body.
   */
  lemma BodyEscaped(content: string, params: string)
    ensures var out := Render(content, params); var k := |Prefix(params)|;
      && StartsWith(out, Open) && EndsWith(out, Close)
      && k <= |out| - |Close|
      && Safe(out[k..|out| - |Close|]) && Unescape(out[k..|out| - |Close|]) == Trim(content)
  {
    var out := Render(content, params);
    var e := Escape(Trim(content));
    assert out[|Prefix(params)|..|out| - |Close|] == e;
    assert out[..|Open|] == Open;
    EscapeSafe(Trim(content));
    UnescapeEscape(Trim(content));
  }
}
