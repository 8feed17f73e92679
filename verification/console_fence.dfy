/**
 * The `console` custom fence (consoleFence.js): a fenced block written
 * ```` ```console -d,$,bash ```` is rendered for the command-line plugin of
 * the Prism highlighter. Every body line gets a prompt span in a prompt
 * column; a line that starts with the prompt is a command, any other line is
 * output. In demo mode (first argument `-d`) the prompt column is filled in
 * without looking at the lines, and the lines are emitted as written.
 */
module ConsoleFence {
  import opened Text
  import opened EscapeHtml

  /** The fence's settings: demo mode, and the comma-separated arguments left after `-d`. */
  datatype Settings = Settings(demo: bool, args: seq<string>)

  /** The comma-separated arguments: the second whitespace-separated word of the params, split at commas. */
  function Arguments(params: string): seq<string> {
    var bits := SplitSpaces(params);
    if |bits| > 1 then Split(bits[1], ',') else []
  }

  /** A first argument `-d` selects demo mode and is dropped from the arguments. */
  function Parse(params: string): Settings
  {
    var args := Arguments(params);
    if |args| > 0 && args[0] == "-d" then Settings(true, args[1..]) else Settings(false, args)
  }

  /** The prompt: the first argument, `%` by default. */
  function Prompt(s: Settings): string {
    if |s.args| > 0 then s.args[0] else "%"
  }

  /** The language class: `language-` and the second argument, `console` by default. */
  function Lang(s: Settings): string {
    "language-" + (if |s.args| > 1 then s.args[1] else "console")
  }

  /** A prompt-column entry showing `p`. */
  function PromptSpan(p: string): string {
    "<span data-prompt=\"" + p + "\"></span>"
  }

  /** The prompt-column entry of an output line. */
  const Blank: string := PromptSpan(" ")

  const CommandOpen: string := "<span class=\"command-line-command\">"

  /** Whether body line number `i` gets the prompt (rather than a blank) in the prompt column. */
  predicate ShowsPrompt(s: Settings, i: nat, line: string) {
    if s.demo then |s.args| == 1 || i == 0 else StartsWith(line, Prompt(s))
  }

  /** The prompt-column entry for body line number `i`. */
  function LineSpan(s: Settings, i: nat, line: string): string {
    if ShowsPrompt(s, i, line) then PromptSpan(Prompt(s)) else Blank
  }

  /**
   * A body line as emitted: verbatim in demo mode; otherwise a command (the
   * text after the prompt and one more character, escaped, in a command span)
   * or escaped output.
   */
  function RenderLine(s: Settings, line: string): string {
    if s.demo then line
    else if StartsWith(line, Prompt(s)) then CommandOpen + Escape(SliceFrom(line, |Prompt(s)| + 1)) + "</span>"
    else Escape(line)
  }

  /** The body: the block's content with leading and trailing whitespace removed. */
  function Body(content: string): string {
    Trim(content)
  }

  function Lines(content: string): seq<string> {
    Split(Body(content), '\n')
  }

  /** The prompt column, one entry per body line. */
  function Column(s: Settings, lines: seq<string>): seq<string> {
    seq(|lines|, i requires 0 <= i < |lines| => LineSpan(s, i, lines[i]))
  }

  function RenderLines(s: Settings, lines: seq<string>): seq<string> {
    seq(|lines|, i requires 0 <= i < |lines| => RenderLine(s, lines[i]))
  }

  function Head(s: Settings): string {
    "<pre class=\"" + Lang(s) + "\"><code class=\"" + Lang(s) + "\"><span class=\"command-line-prompt\">"
  }

  /** The rendered block. */
  function Render(content: string, params: string): string {
    var s := Parse(params);
    var lines := Lines(content);
    Head(s) + Concat(Column(s, lines)) + "</span>" + Join(RenderLines(s, lines), "\n") + "</code></pre>"
  }

  // ---------------------------------------------------------------------------
  // Properties

  /** Without arguments: no demo mode, prompt `%`, class `language-console`. */
  lemma Defaults(params: string)
    requires |SplitSpaces(params)| <= 1
    ensures Parse(params) == Settings(false, [])
    ensures Prompt(Parse(params)) == "%" && Lang(Parse(params)) == "language-console"
  {
  }

  /** The arguments come from one whitespace-free word, so they hold no line break. */
  lemma ArgumentsNoNewline(params: string)
    ensures forall k :: 0 <= k < |Arguments(params)| ==> '\n' !in Arguments(params)[k]
  {
    var bits := SplitSpaces(params);
    if |bits| > 1 {
      SplitSpacesWords(params);
      assert forall j :: 0 <= j < |bits[1]| ==> !IsSpace(bits[1][j]);
      assert '\n' !in bits[1];
      SplitKeepsOut(bits[1], ',', '\n');
    }
  }

  /** Neither the prompt nor the language class holds a line break. */
  lemma SettingsNoNewline(params: string)
    ensures '\n' !in Prompt(Parse(params)) && '\n' !in Lang(Parse(params))
  {
    ArgumentsNoNewline(params);
    var args := Arguments(params);
    var s := Parse(params);
    if s.demo {
      assert forall k :: 0 <= k < |s.args| ==> s.args[k] == args[k + 1];
    }
  }

  /** Exactly one prompt-column entry per body line, each showing the prompt or a blank. */
  lemma ColumnPerLine(content: string, params: string)
    ensures var s := Parse(params); var col := Column(s, Lines(content));
      && |col| == Count(Body(content), '\n') + 1
      && forall i :: 0 <= i < |col| ==> col[i] == PromptSpan(Prompt(s)) || col[i] == Blank
  {
    CountSplit(Body(content), '\n');
  }

  /** A first argument `-d` turns demo mode on and is removed from the arguments. */
  lemma DemoSwitch(params: string)
    ensures var args := Arguments(params);
      && (Parse(params).demo <==> |args| > 0 && args[0] == "-d")
      && Parse(params).args == if Parse(params).demo then args[1..] else args
  {
  }

  /** So with arguments `-d,$` the prompt is `$` and the language stays the default. */
  lemma DemoExample(params: string)
    requires Arguments(params) == ["-d", "$"]
    ensures Parse(params) == Settings(true, ["$"])
    ensures Prompt(Parse(params)) == "$" && Lang(Parse(params)) == "language-console"
  {
    assert Arguments(params)[1..] == ["$"];
  }

  /**
   * In demo mode every line shows the prompt when the prompt is the only
   * argument; with a language argument as well, only the first line does.
   */
  lemma DemoColumn(content: string, params: string, i: nat)
    requires Parse(params).demo && i < |Lines(content)|
    ensures var s := Parse(params);
      Column(s, Lines(content))[i] == if |s.args| == 1 || i == 0 then PromptSpan(Prompt(s)) else Blank
  {
  }

  /** Outside demo mode the prompt is shown exactly on the lines that start with it. */
  lemma CommandLinesPrompted(content: string, params: string, i: nat)
    requires !Parse(params).demo && i < |Lines(content)|
    ensures var s := Parse(params);
      ShowsPrompt(s, i, Lines(content)[i]) <==> StartsWith(Lines(content)[i], Prompt(s))
  {
  }

  /** A command line shows the escaped text after the prompt and one separator character, recoverable and safe. */
  lemma CommandLine(s: Settings, line: string)
    requires !s.demo && StartsWith(line, Prompt(s))
    ensures var r := RenderLine(s, line);
      && StartsWith(r, CommandOpen)
      && |CommandOpen| + 7 <= |r| && r[|r| - 7..] == "</span>"
      && Unescape(r[|CommandOpen|..|r| - 7]) == SliceFrom(line, |Prompt(s)| + 1)
      && Safe(r[|CommandOpen|..|r| - 7])
  {
    var e := Escape(SliceFrom(line, |Prompt(s)| + 1));
    var r := RenderLine(s, line);
    assert r == CommandOpen + e + "</span>";
    assert r[|CommandOpen|..|r| - 7] == e;
    UnescapeEscape(SliceFrom(line, |Prompt(s)| + 1));
    EscapeSafe(SliceFrom(line, |Prompt(s)| + 1));
  }

  /** Any other line outside demo mode is escaped: safe, and it decodes to the line. */
  lemma OutputLine(s: Settings, line: string)
    requires !s.demo && !StartsWith(line, Prompt(s))
    ensures Safe(RenderLine(s, line)) && Unescape(RenderLine(s, line)) == line
  {
    UnescapeEscape(line);
    EscapeSafe(line);
  }

  /** In demo mode the body appears verbatim, unescaped. */
  lemma DemoVerbatim(content: string, params: string)
    requires Parse(params).demo
    ensures var s := Parse(params);
      Render(content, params) == Head(s) + Concat(Column(s, Lines(content))) + "</span>" + Body(content) + "</code></pre>"
  {
    var s := Parse(params);
    assert RenderLines(s, Lines(content)) == Lines(content);
    JoinSplit(Body(content), '\n');
  }

  lemma RenderLineNoNewline(s: Settings, line: string)
    requires '\n' !in line
    ensures '\n' !in RenderLine(s, line)
  {
    if !s.demo {
      if StartsWith(line, Prompt(s)) {
        var rest := SliceFrom(line, |Prompt(s)| + 1);
        assert forall k :: 0 <= k < |rest| ==> rest[k] in line;
        EscapeKeeps(rest, '\n');
        assert '\n' !in CommandOpen;
      } else {
        EscapeKeeps(line, '\n');
      }
    }
  }

  lemma RenderedLinesNoNewline(s: Settings, lines: seq<string>)
    requires forall i :: 0 <= i < |lines| ==> '\n' !in lines[i]
    ensures forall i :: 0 <= i < |lines| ==> '\n' !in RenderLines(s, lines)[i]
  {
    forall i | 0 <= i < |lines| ensures '\n' !in RenderLines(s, lines)[i] {
      RenderLineNoNewline(s, lines[i]);
    }
  }

  /** Text around a join adds no line breaks when it has none itself. */
  lemma CountAround(a: string, j: string, b: string)
    requires '\n' !in a && '\n' !in b
    ensures Count(a + j + b, '\n') == Count(j, '\n')
  {
    CountAppend(a, j, '\n');
    CountAppend(a + j, b, '\n');
  }

  lemma PromptSpanNoNewline(p: string)
    requires '\n' !in p
    ensures '\n' !in PromptSpan(p)
  {
  }

  lemma HeadNoNewline(s: Settings)
    requires '\n' !in Lang(s)
    ensures '\n' !in Head(s)
  {
  }

  lemma OpeningNoNewline(s: Settings, lines: seq<string>)
    requires '\n' !in Prompt(s) && '\n' !in Lang(s)
    ensures '\n' !in Head(s) + Concat(Column(s, lines)) + "</span>"
  {
    var col := Column(s, lines);
    PromptSpanNoNewline(Prompt(s));
    PromptSpanNoNewline(" ");
    forall i | 0 <= i < |col| ensures '\n' !in col[i] {
    }
    ConcatKeepsOut(col, '\n');
    HeadNoNewline(s);
  }

  /** The rendered block has exactly as many lines as the body. */
  lemma SameLineCount(content: string, params: string)
    ensures Count(Render(content, params), '\n') == Count(Body(content), '\n')
  {
    var s := Parse(params);
    var lines := Lines(content);
    SettingsNoNewline(params);
    OpeningNoNewline(s, lines);
    SplitPiecesFree(Body(content), '\n');
    RenderedLinesNoNewline(s, lines);
    CountAround(Head(s) + Concat(Column(s, lines)) + "</span>", Join(RenderLines(s, lines), "\n"), "</code></pre>");
    CountJoin(RenderLines(s, lines), '\n');
    CountSplit(Body(content), '\n');
  }
}
