/**
 * The post-processing of rendered HTML in `process_mermaid_diagrams`
 * (rust/src/renderer.rs). A first pass swaps highlighted HTML in for every
 * fenced code block whose language syntect knows, skipping mermaid blocks;
 * a second pass turns the openers of mermaid blocks into
 * `<div class="mermaid">` and then walks the text line by line, closing
 * each mermaid block with `</div>` in place of `</code></pre>`.
 *
 * The regular expression that finds the code blocks and the highlighter
 * are represented by their results: the blocks found, in document order,
 * and a function from a block's language and code to its highlighted HTML
 * (None when the language is unknown or highlighting fails).
 */
module Renderer {
  import opened RustCore
  import opened RustStr

  const MERMAID_DIV := "<div class=\"mermaid\">"
  const OPENER_LANG := "<pre><code class=\"language-mermaid\">"
  const OPENER_BARE := "<pre><code>mermaid"
  const CODE_CLOSE := "</code></pre>"
  const DIV_CLOSE := "</div>"

  // ---------------------------------------------------------------------------
  // first pass: syntax highlighting

  /** A fenced code block as the regular expression captures it: its language and its (escaped) code. */
  datatype CodeBlock = CodeBlock(lang: string, code: string)

  /** The highlighter: the highlighted HTML of some code in some language, if it can produce one. */
  type Highlighter = (string, string) -> Option<string>

  /** The full text of the match: `<pre><code class="language-{lang}">{code}</code></pre>`. */
  function BlockText(b: CodeBlock): (text: string)
    ensures text != []
  {
    "<pre><code class=\"language-" + b.lang + "\">" + b.code + CODE_CLOSE
  }

  /** What a highlighted block is replaced with: the `format!` of the first pass. */
  function HighlightedBlock(lang: string, highlighted: string): string {
    "<pre class=\"syntax-highlight language-" + lang + "\">" + highlighted + "</pre>"
  }

  /**
   * One iteration of the first pass: a mermaid block is skipped, and so is a
   * block that cannot be highlighted; otherwise every copy of the block's
   * text is replaced by its highlighted form.
   */
  function HighlightStep(text: string, b: CodeBlock, highlight: Highlighter): string {
    if b.lang == "mermaid" then text
    else match highlight(b.lang, b.code)
      case None => text
      case Some(h) => ReplaceAll(text, BlockText(b), HighlightedBlock(b.lang, h))
  }

  /** The first pass over the blocks in order. */
  function HighlightBlocks(html: string, blocks: seq<CodeBlock>, highlight: Highlighter): string
    decreases |blocks|
  {
    if blocks == [] then html
    else HighlightStep(HighlightBlocks(html, blocks[..|blocks| - 1], highlight), blocks[|blocks| - 1], highlight)
  }

  /** A block that is mermaid or cannot be highlighted leaves the text alone. */
  predicate Untouched(b: CodeBlock, highlight: Highlighter) {
    b.lang == "mermaid" || highlight(b.lang, b.code).None?
  }

  /**
   * When every block is a mermaid block or cannot be highlighted, the first
   * pass returns the document unchanged.
   */
  lemma {:induction false} HighlightSkipsMermaid(html: string, blocks: seq<CodeBlock>, highlight: Highlighter)
    requires forall i :: 0 <= i < |blocks| ==> Untouched(blocks[i], highlight)
    ensures HighlightBlocks(html, blocks, highlight) == html
    decreases |blocks|
  {
    if blocks != [] {
      HighlightSkipsMermaid(html, blocks[..|blocks| - 1], highlight);
    }
  }

  /** A mermaid block found anywhere among the blocks contributes nothing to the first pass. */
  lemma {:induction false} HighlightDropsMermaid(html: string, before: seq<CodeBlock>, b: CodeBlock, after: seq<CodeBlock>,
                                                 highlight: Highlighter)
    requires b.lang == "mermaid"
    ensures HighlightBlocks(html, before + [b] + after, highlight) == HighlightBlocks(html, before + after, highlight)
    decreases |after|
  {
    hide HighlightStep;
    if after == [] {
      var prior := HighlightBlocks(html, before, highlight);
      HighlightSkipsMermaid(prior, [b], highlight);
      assert [b][..0] == [];
      assert before + [b] + after == before + [b];
      assert (before + [b])[..|before|] == before;
      assert before + after == before;
    } else {
      var n := |after| - 1;
      HighlightDropsMermaid(html, before, b, after[..n], highlight);
      assert (before + [b] + after)[..|before| + 1 + n] == before + [b] + after[..n];
      assert (before + after)[..|before| + n] == before + after[..n];
    }
  }

  /** The first pass of `process_mermaid_diagrams`: a loop over the blocks that updates `intermediate`. */
  method HighlightCodeBlocks(html: string, blocks: seq<CodeBlock>, highlight: Highlighter) returns (intermediate: string)
    ensures intermediate == HighlightBlocks(html, blocks, highlight)
  {
    intermediate := html;
    for i := 0 to |blocks|
      invariant intermediate == HighlightBlocks(html, blocks[..i], highlight)
    {
      assert blocks[..i + 1][..i] == blocks[..i];
      var b := blocks[i];
      if b.lang == "mermaid" {
        continue;
      }
      match highlight(b.lang, b.code)
      case None =>
      case Some(h) =>
        intermediate := ReplaceAll(intermediate, BlockText(b), HighlightedBlock(b.lang, h));
    }
    assert blocks[..|blocks|] == blocks;
  }

  // ---------------------------------------------------------------------------
  // second pass: mermaid openers

  /** Both spellings of a mermaid opener become `<div class="mermaid">`, the fenced one first. */
  function ReplaceMermaidOpeners(text: string): string {
    ReplaceAll(ReplaceAll(text, OPENER_LANG, MERMAID_DIV), OPENER_BARE, MERMAID_DIV)
  }

  /** A text with no mermaid opener of either spelling is left as it is. */
  lemma OpenersAbsent(text: string)
    requires !Contains(text, OPENER_LANG) && !Contains(text, OPENER_BARE)
    ensures ReplaceMermaidOpeners(text) == text
  {
    ReplaceAllNoMatch(text, OPENER_LANG, MERMAID_DIV);
    ReplaceAllNoMatch(text, OPENER_BARE, MERMAID_DIV);
  }

  /**
   * The first fenced mermaid opener becomes the div: the text before it is
   * copied and the scan resumes right after it.
   */
  lemma OpenerReplaced(text: string)
    requires Contains(text, OPENER_LANG)
    ensures var i := Find(text, OPENER_LANG).value;
      ReplaceAll(text, OPENER_LANG, MERMAID_DIV)
        == text[..i] + MERMAID_DIV + ReplaceAll(text[i + |OPENER_LANG|..], OPENER_LANG, MERMAID_DIV)
  {
    ReplaceAllFirstMatch(text, OPENER_LANG, MERMAID_DIV);
  }

  /** The replacements add and remove no line feed, so the text keeps its lines. */
  lemma OpenersKeepLineBreaks(text: string)
    ensures multiset(ReplaceMermaidOpeners(text))['\n'] == multiset(text)['\n']
  {
    ReplaceAllKeepsCount(text, OPENER_LANG, MERMAID_DIV, '\n');
    ReplaceAllKeepsCount(ReplaceAll(text, OPENER_LANG, MERMAID_DIV), OPENER_BARE, MERMAID_DIV, '\n');
  }

  // ---------------------------------------------------------------------------
  // second pass: the line loop

  /** What one line becomes, and the `in_mermaid` flag after it. */
  datatype LineStep = LineStep(out: string, inMermaid: bool)

  /**
   * One iteration of the line loop. A line holding the div opener is kept
   * and opens a mermaid block, even when it also holds `</code></pre>`.
   * Inside a block, the first line holding `</code></pre>` has every copy
   * of it turned into `</div>` and closes the block. Any other line is kept.
   */
  function RewriteLine(inMermaid: bool, line: string): LineStep {
    if Contains(line, MERMAID_DIV) then LineStep(line, true)
    else if inMermaid && Contains(line, CODE_CLOSE) then LineStep(ReplaceAll(line, CODE_CLOSE, DIV_CLOSE), false)
    else LineStep(line, inMermaid)
  }

  /** The `in_mermaid` flag after the given lines. */
  function FlagAfter(lines: seq<string>): bool
    decreases |lines|
  {
    if lines == [] then false
    else RewriteLine(FlagAfter(lines[..|lines| - 1]), lines[|lines| - 1]).inMermaid
  }

  /** The lines as the loop emits them; there are as many as it was given. */
  function RewriteLines(lines: seq<string>): (out: seq<string>)
    ensures |out| == |lines|
    decreases |lines|
  {
    if lines == [] then []
    else
      var init := lines[..|lines| - 1];
      RewriteLines(init) + [RewriteLine(FlagAfter(init), lines[|lines| - 1]).out]
  }

  /** The second pass of `process_mermaid_diagrams` on the highlighted text. */
  function MermaidPass(intermediate: string): string {
    Unlines(RewriteLines(Lines(ReplaceMermaidOpeners(intermediate))))
  }

  /** `process_mermaid_diagrams` on the rendered HTML. */
  function ProcessMermaid(html: string, blocks: seq<CodeBlock>, highlight: Highlighter): string {
    MermaidPass(HighlightBlocks(html, blocks, highlight))
  }

  /** The `i`-th emitted line is the `i`-th line rewritten under the flag the lines before it leave. */
  lemma {:induction false} RewriteLinesAt(lines: seq<string>, i: nat)
    requires i < |lines|
    ensures RewriteLines(lines)[i] == RewriteLine(FlagAfter(lines[..i]), lines[i]).out
    ensures FlagAfter(lines[..i + 1]) == RewriteLine(FlagAfter(lines[..i]), lines[i]).inMermaid
    decreases |lines|
  {
    var n := |lines| - 1;
    var init := lines[..n];
    assert lines[..i + 1][..i] == lines[..i];
    if i < n {
      RewriteLinesAt(init, i);
      assert init[..i] == lines[..i] && init[..i + 1] == lines[..i + 1];
    } else {
      assert lines[..i] == init;
      assert lines[..i + 1] == lines;
    }
  }

  /**
   * The flag is set after some lines exactly when one of them holds the div
   * opener and no line after it holds `</code></pre>`.
   */
  lemma {:induction false} FlagAfterOpen(lines: seq<string>)
    ensures FlagAfter(lines) <==>
      exists j :: 0 <= j < |lines| && Contains(lines[j], MERMAID_DIV)
        && forall k :: j < k < |lines| ==> !Contains(lines[k], CODE_CLOSE)
    decreases |lines|
  {
    if lines != [] {
      var n := |lines| - 1;
      var init := lines[..n];
      FlagAfterOpen(init);
      if FlagAfter(lines) {
        if Contains(lines[n], MERMAID_DIV) {
          assert 0 <= n < |lines| && Contains(lines[n], MERMAID_DIV);
        } else {
          var j :| 0 <= j < n && Contains(init[j], MERMAID_DIV) && forall k :: j < k < n ==> !Contains(init[k], CODE_CLOSE);
          assert forall k :: j < k < |lines| ==> !Contains(lines[k], CODE_CLOSE) by {
            forall k | j < k < |lines|
              ensures !Contains(lines[k], CODE_CLOSE)
            {
              if k < n {
                assert lines[k] == init[k];
              }
            }
          }
        }
      } else {
        forall j | 0 <= j < |lines| && Contains(lines[j], MERMAID_DIV)
          ensures exists k :: j < k < |lines| && Contains(lines[k], CODE_CLOSE)
        {
          if j < n {
            assert init[j] == lines[j];
            if !Contains(lines[n], CODE_CLOSE) {
              var k :| j < k < n && Contains(init[k], CODE_CLOSE);
              assert lines[k] == init[k];
            }
          }
        }
      }
    }
  }

  /** A line holding the div opener is emitted unchanged, and the block it opens stays open after it. */
  lemma OpenerLineKept(lines: seq<string>, i: nat)
    requires i < |lines| && Contains(lines[i], MERMAID_DIV)
    ensures RewriteLines(lines)[i] == lines[i]
    ensures FlagAfter(lines[..i + 1])
  {
    RewriteLinesAt(lines, i);
  }

  /**
   * A line that is not inside a mermaid block (no opener line before it is
   * still open) is emitted unchanged, even when it holds `</code></pre>`.
   */
  lemma OutsideLineKept(lines: seq<string>, i: nat)
    requires i < |lines| && !FlagAfter(lines[..i])
    ensures RewriteLines(lines)[i] == lines[i]
  {
    RewriteLinesAt(lines, i);
  }

  /**
   * Inside an open mermaid block, a line without the opener that holds
   * `</code></pre>` is emitted with every copy of it turned into `</div>`,
   * and the block is closed.
   */
  lemma CloserLineRewritten(lines: seq<string>, i: nat)
    requires i < |lines| && FlagAfter(lines[..i])
    requires !Contains(lines[i], MERMAID_DIV) && Contains(lines[i], CODE_CLOSE)
    ensures RewriteLines(lines)[i] == ReplaceAll(lines[i], CODE_CLOSE, DIV_CLOSE)
    ensures Contains(RewriteLines(lines)[i], DIV_CLOSE)
    ensures !FlagAfter(lines[..i + 1])
  {
    RewriteLinesAt(lines, i);
    ReplaceAllInserts(lines[i], CODE_CLOSE, DIV_CLOSE);
  }

  /** Rewriting a line adds no line break to it. */
  lemma {:induction false} RewriteLinesNoBreaks(lines: seq<string>)
    requires forall i :: 0 <= i < |lines| ==> '\n' !in lines[i]
    ensures forall i :: 0 <= i < |lines| ==> '\n' !in RewriteLines(lines)[i]
  {
    forall i | 0 <= i < |lines|
      ensures '\n' !in RewriteLines(lines)[i]
    {
      RewriteLinesAt(lines, i);
      if Contains(lines[i], CODE_CLOSE) {
        ReplaceAllAvoids(lines[i], CODE_CLOSE, DIV_CLOSE, '\n');
      }
    }
  }

  /**
   * The joined lines hold one line feed per line and end with one: every
   * emitted line is terminated, and no line feed is added or lost.
   */
  lemma {:induction false} UnlinesBreaks(lines: seq<string>)
    requires forall i :: 0 <= i < |lines| ==> '\n' !in lines[i]
    ensures multiset(Unlines(lines))['\n'] == |lines|
    ensures lines != [] ==> Unlines(lines)[|Unlines(lines)| - 1] == '\n'
    ensures lines == [] <==> Unlines(lines) == []
    decreases |lines|
  {
    if lines != [] {
      var n := |lines| - 1;
      UnlinesBreaks(lines[..n]);
      assert multiset(lines[n])['\n'] == 0;
    }
  }

  /**
   * The second pass emits one terminated line per line of the text after
   * the opener replacement: the output is empty exactly when there are no
   * lines (so an empty document gives an empty page), and otherwise it ends
   * with a line feed and holds one per line.
   */
  lemma MermaidPassLines(intermediate: string)
    ensures var lines := Lines(ReplaceMermaidOpeners(intermediate));
      var out := MermaidPass(intermediate);
      && multiset(out)['\n'] == |lines|
      && (out == [] <==> lines == [])
      && (out != [] ==> out[|out| - 1] == '\n')
  {
    var lines := Lines(ReplaceMermaidOpeners(intermediate));
    RewriteLinesNoBreaks(lines);
    UnlinesBreaks(RewriteLines(lines));
  }

  /** Lines none of which opens a mermaid block leave the flag clear and are all emitted unchanged. */
  lemma {:induction false} NoBlockKeepsLines(lines: seq<string>)
    requires forall i :: 0 <= i < |lines| ==> !Contains(lines[i], MERMAID_DIV)
    ensures !FlagAfter(lines) && RewriteLines(lines) == lines
    decreases |lines|
  {
    if lines != [] {
      NoBlockKeepsLines(lines[..|lines| - 1]);
      assert lines == lines[..|lines| - 1] + [lines[|lines| - 1]];
    }
  }

  /**
   * A document without carriage returns in which nothing mentions a mermaid
   * block comes out of the second pass as it went in, with a line feed
   * added after an unterminated last line.
   */
  lemma MermaidPassPlain(text: string)
    requires '\r' !in text && !Contains(text, OPENER_LANG) && !Contains(text, OPENER_BARE)
    requires !Contains(text, MERMAID_DIV)
    ensures MermaidPass(text) == if text == [] || text[|text| - 1] == '\n' then text else text + "\n"
  {
    LinesAvoid(text, MERMAID_DIV);
    OpenersAbsent(text);
    NoBlockKeepsLines(Lines(text));
    LinesRejoin(text);
  }

  /** An empty document gives an empty page. */
  lemma ProcessEmpty(blocks: seq<CodeBlock>, highlight: Highlighter)
    ensures ProcessMermaid([], blocks, highlight) == []
  {
    EmptyStaysEmpty(blocks, highlight);
    OpenersAbsent([]);
    assert Lines([]) == [];
  }

  lemma {:induction false} EmptyStaysEmpty(blocks: seq<CodeBlock>, highlight: Highlighter)
    ensures HighlightBlocks([], blocks, highlight) == []
    decreases |blocks|
  {
    if blocks != [] {
      EmptyStaysEmpty(blocks[..|blocks| - 1], highlight);
      var b := blocks[|blocks| - 1];
      if !Untouched(b, highlight) {
        ReplaceAllNoMatch([], BlockText(b), HighlightedBlock(b.lang, highlight(b.lang, b.code).value));
      }
    }
  }

  /**
   * `process_mermaid_diagrams`: the highlighting loop, the opener
   * replacements, then the line loop that builds `result` with the
   * `in_mermaid` flag.
   */
  method ProcessMermaidDiagrams(html: string, blocks: seq<CodeBlock>, highlight: Highlighter) returns (result: string)
    ensures result == ProcessMermaid(html, blocks, highlight)
  {
    var intermediate := HighlightCodeBlocks(html, blocks, highlight);
    intermediate := ReplaceMermaidOpeners(intermediate);
    var lines := Lines(intermediate);
    result := "";
    var inMermaid := false;
    for i := 0 to |lines|
      invariant result == Unlines(RewriteLines(lines[..i]))
      invariant inMermaid == FlagAfter(lines[..i])
    {
      assert lines[..i + 1][..i] == lines[..i];
      var line := lines[i];
      if Contains(line, MERMAID_DIV) {
        inMermaid := true;
        result := result + line + "\n";
      } else if inMermaid && Contains(line, CODE_CLOSE) {
        inMermaid := false;
        result := result + ReplaceAll(line, CODE_CLOSE, DIV_CLOSE) + "\n";
      } else {
        result := result + line + "\n";
      }
    }
    assert lines[..|lines|] == lines;
  }
}
