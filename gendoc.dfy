/** Two pieces of the style gallery generator in cmd/gendoc: the pass that
    turns chroma's class-based stylesheet into inline `style` attributes,
    and the input page built for each style, with its Prev and Next
    buttons. Highlighting, the index and all-styles pages, the footer's
    clock and writing files are not modelled. */
module Gallery {
  import opened Text

  // ---------------------------------------------------------------------
  // Inlining the stylesheet (lines 135-150)

  /** One stylesheet rule: the class it is for (empty for the outer
      `.chroma` rule) and its declarations. */
  datatype Rule = Rule(className: string, style: string)

  /** A chunk of the stylesheet read as a rule: every `.chroma` removed, then
      split at '{' into exactly two parts; the class name trimmed and
      stripped of one leading '.', the declarations trimmed. */
  function ParseRule(element: string): (r: Option<Rule>)
    ensures r.Some? ==> r.value.style == [] || (!IsSpace(r.value.style[0]) && !IsSpace(r.value.style[|r.value.style| - 1]))
  {
    var elements := Split(ReplaceAll(element, ".chroma", ""), "{");
    if |elements| != 2 then None
    else
      var className := TrimSpace(elements[0]);
      var className := if "." <= className then className[1..] else className;
      Some(Rule(className, TrimSpace(elements[1])))
  }

  /** Removing every occurrence from the first one on keeps the text
      before it. */
  lemma RemoveFirstStep(s: string, pat: string, i: nat)
    requires |pat| > 0 && IndexOf(s, pat) == Some(i)
    ensures s == s[..i] + pat + s[i + |pat|..]
    ensures ReplaceAll(s, pat, []) == s[..i] + ReplaceAll(s[i + |pat|..], pat, [])
  {
  }

  /** One step of the removal keeps the count of a byte the pattern lacks,
      when the removal of the rest does. */
  lemma KeepsByteStep(front: string, pat: string, rest: string, removed: string, c: char)
    requires c !in pat && multiset(removed)[c] == multiset(rest)[c]
    ensures multiset(front + removed)[c] == multiset(front + pat + rest)[c]
  {
    assert multiset(pat)[c] == 0;
  }

  /** Removing a pattern keeps the count of a byte the pattern lacks. */
  lemma {:induction false} RemoveAllKeepsByte(s: string, pat: string, c: char)
    requires |pat| > 0 && c !in pat
    ensures multiset(ReplaceAll(s, pat, []))[c] == multiset(s)[c]
    decreases |s|
  {
    match IndexOf(s, pat)
    case None =>
    case Some(i) =>
      RemoveFirstStep(s, pat, i);
      RemoveAllKeepsByte(s[i + |pat|..], pat, c);
      KeepsByteStep(s[..i], pat, s[i + |pat|..], ReplaceAll(s[i + |pat|..], pat, []), c);
  }

  /** A chunk becomes a rule exactly when it holds one '{'. */
  lemma ParseRuleIff(element: string)
    ensures ParseRule(element).Some? <==> multiset(element)['{'] == 1
  {
    RemoveAllKeepsByte(element, ".chroma", '{');
    SplitOnByteLength(ReplaceAll(element, ".chroma", ""), '{');
  }

  /** The text a rule looks for and the text it puts in its place. */
  function Target(rule: Rule): string {
    if rule.className == [] then "<pre " else "<span class=\"" + rule.className + "\""
  }

  function Inlined(rule: Rule): string {
    if rule.className == [] then "<pre style=\"" + rule.style + "\" " else "<span style=\"" + rule.style + "\""
  }

  /** The rule for the outer `.chroma` class styles every `<pre `; any
      other rule replaces every `<span class="NAME"` by an inline style. */
  function ApplyRule(html: string, rule: Rule): string {
    ReplaceAll(html, Target(rule), Inlined(rule))
  }

  /** A rule replaces every occurrence of its target and nothing else: the
      text between occurrences is kept, and holds no target. */
  lemma ApplyRuleSplitJoin(html: string, rule: Rule)
    ensures var pieces := Split(html, Target(rule));
      && html == JoinWith(pieces, Target(rule))
      && ApplyRule(html, rule) == JoinWith(pieces, Inlined(rule))
      && forall k :: 0 <= k < |pieces| ==> !Contains(pieces[k], Target(rule))
  {
    SplitJoinRoundTrip(html, Target(rule));
    ReplaceAllIsSplitJoin(html, Target(rule), Inlined(rule));
    SplitPiecesAreFree(html, Target(rule));
  }

  /** A chunk applied to the markup: a rule is applied, anything else is
      skipped. */
  function ApplyChunk(html: string, element: string): string {
    match ParseRule(element)
    case None => html
    case Some(rule) => ApplyRule(html, rule)
  }

  /** The markup after applying, in order, every chunk that reads as a rule. */
  function InlineAll(html: string, elements: seq<string>): string {
    if |elements| == 0 then html
    else ApplyChunk(InlineAll(html, elements[..|elements| - 1]), elements[|elements| - 1])
  }

  /** Chunks that are not rules change nothing. */
  lemma {:induction false} NoRulesNoChange(html: string, elements: seq<string>)
    requires forall k :: 0 <= k < |elements| ==> multiset(elements[k])['{'] != 1
    ensures InlineAll(html, elements) == html
    decreases |elements|
  {
    if |elements| > 0 {
      ParseRuleIff(elements[|elements| - 1]);
      NoRulesNoChange(html, elements[..|elements| - 1]);
    }
  }

  /** The body of the loop for one chunk (lines 137-148). */
  method InlineChunk(htmlBytes: string, element: string) returns (out: string)
    ensures out == ApplyChunk(htmlBytes, element)
  {
    out := htmlBytes;
    var elements := Split(ReplaceAll(element, ".chroma", ""), "{");
    if |elements| == 2 {
      var className := TrimSpace(elements[0]);
      if "." <= className {
        className := className[1..];
      }
      var style := TrimSpace(elements[1]);
      if |className| == 0 {
        out := ReplaceAll(out, "<pre ", "<pre style=\"" + style + "\" ");
      } else {
        out := ReplaceAll(out, "<span class=\"" + className + "\"", "<span style=\"" + style + "\"");
      }
    }
  }

  /** The loop of lines 135-150: split the stylesheet at '}' and apply each
      chunk that reads as a rule to htmlBytes. */
  method InlineStyles(htmlBytes: string, cssBytes: string) returns (out: string)
    ensures out == InlineAll(htmlBytes, Split(cssBytes, "}"))
  {
    var cssElements := Split(cssBytes, "}");
    out := htmlBytes;
    for i := 0 to |cssElements|
      invariant out == InlineAll(htmlBytes, cssElements[..i])
    {
      assert cssElements[..i + 1][..i] == cssElements[..i];
      out := InlineChunk(out, cssElements[i]);
    }
    assert cssElements[..|cssElements|] == cssElements;
  }

  // ---------------------------------------------------------------------
  // The input page for each style (lines 38-74)

  const SimpleCss := "body { font-family: sans-serif; margin: 4em; } .chroma { padding: 1em; } #main-headline { border-bottom: 3px solid red; margin-bottom: 2em; } a { color: #1E385B; } a:visited { color: #1E385B; } a:hover { color: #4682B4; }"

  const DisabledPrev := "<button disabled='true'>Prev</button>"
  const DisabledNext := "<button disabled='true'>Next</button>"
  const LinkOpen := "<button onClick=\"location.href='"

  /** A button that opens the page of the named style. */
  function LinkButton(name: string, caption: string): string {
    LinkOpen + name + ".html'\">" + caption + "</button>"
  }

  /** Lines 53-58: a link to the previous style, disabled on the first. */
  function PrevButton(styles: seq<string>, i: nat): string
    requires i < |styles|
  {
    if i > 0 then LinkButton(styles[i - 1], "Prev") else DisabledPrev
  }

  /** Lines 60-66: a link to the next style, disabled on the last. */
  function NextButton(styles: seq<string>, i: nat): string
    requires i < |styles|
  {
    if i < |styles| - 1 then LinkButton(styles[i + 1], "Next") else DisabledNext
  }

  /** The page a button opens: the name before `.html'` in its link. */
  function ButtonTarget(button: string): (r: Option<string>)
    ensures r.Some? ==> LinkOpen <= button
  {
    if !(LinkOpen <= button) then None
    else
      var rest := button[|LinkOpen|..];
      match IndexOf(rest, ".html'")
      case None => None
      case Some(j) => Some(rest[..j])
  }

  /** A disabled button opens nothing. */
  lemma DisabledHasNoTarget()
    ensures ButtonTarget(DisabledPrev) == None && ButtonTarget(DisabledNext) == None
  {
    assert DisabledPrev[8] != LinkOpen[8];
    assert DisabledNext[8] != LinkOpen[8];
  }

  /** A pattern whose last byte occurs nowhere else in it, put right after
      a name that lacks that byte, is first found right after the name. */
  lemma FoundAfterName(name: string, pat: string, tail: string)
    requires |pat| > 0 && pat[|pat| - 1] !in name && pat[|pat| - 1] !in pat[..|pat| - 1]
    ensures IndexOf(name + pat + tail, pat) == Some(|name|)
  {
    var t := name + pat + tail;
    var last := |pat| - 1;
    forall j: nat | j < |name| ensures !OccursAt(t, pat, j) {
      assert t[j + last] != pat[last] by {
        if j + last < |name| {
          assert t[j + last] == name[j + last];
        } else {
          assert t[j + last] == pat[..last][j + last - |name|];
        }
      }
    }
    assert t[|name|..|name| + |pat|] == pat;
    FirstAtIsIndexOf(t, pat, |name|);
  }

  /** A link button opens the style it was made for, when the name holds no
      quote. */
  lemma LinkButtonTarget(name: string, caption: string)
    requires '\'' !in name
    ensures ButtonTarget(LinkButton(name, caption)) == Some(name)
  {
    var b := LinkButton(name, caption);
    var pat, tail := ".html'", "\">" + caption + "</button>";
    assert b[|LinkOpen|..] == name + pat + tail;
    assert pat[..5] == ".html";
    FoundAfterName(name, pat, tail);
    assert (name + pat + tail)[..|name|] == name;
  }

  /** The Prev button is disabled exactly on the first page and otherwise
      opens the previous style's page. */
  lemma PrevButtonLinks(styles: seq<string>, i: nat)
    requires i < |styles| && forall k :: 0 <= k < |styles| ==> '\'' !in styles[k]
    ensures PrevButton(styles, i) == DisabledPrev <==> i == 0
    ensures i > 0 ==> ButtonTarget(PrevButton(styles, i)) == Some(styles[i - 1])
  {
    if i > 0 {
      LinkButtonTarget(styles[i - 1], "Prev");
      DisabledHasNoTarget();
    }
  }

  /** The Next button is disabled exactly on the last page and otherwise
      opens the next style's page. */
  lemma NextButtonLinks(styles: seq<string>, i: nat)
    requires i < |styles| && forall k :: 0 <= k < |styles| ==> '\'' !in styles[k]
    ensures NextButton(styles, i) == DisabledNext <==> i == |styles| - 1
    ensures i < |styles| - 1 ==> ButtonTarget(NextButton(styles, i)) == Some(styles[i + 1])
  {
    if i < |styles| - 1 {
      LinkButtonTarget(styles[i + 1], "Next");
      DisabledHasNoTarget();
    }
  }

  /** What comes before the sample: the head with the style's name as its
      title and the headline linking to the all-styles page. */
  function PageHead(styleName: string): string {
    "<!doctype html><html><head><title>" + styleName + "</title><style>"
    + SimpleCss + " a { text-decoration: none; }  a:hover { color: #4682B4; }"
    + "</style></head><body><h1>"
    + "<a alt='View " + styleName + " on a page with all the styles' href='all.html#" + styleName + "'>" + styleName + "</a>"
    + "</h1>"
  }

  const PageTail := "<button onClick=\"location.href='all.html'\">All</button>"
    + "<button onClick=\"location.href='index.html'\">Overview</button>"
    + "</body></html>"

  /** The document handed to the highlighter for the i-th style. */
  function InputPage(styles: seq<string>, i: nat, sample: string): string
    requires i < |styles|
  {
    PageHead(styles[i]) + sample + PrevButton(styles, i) + NextButton(styles, i) + PageTail
  }

  /** inputBuffer for the i-th style, written piece by piece. */
  method WriteInputPage(styles: seq<string>, i: nat, sample: string) returns (page: string)
    requires i < |styles|
    ensures page == InputPage(styles, i, sample)
  {
    var styleName := styles[i];
    var inputBuffer := PageHead(styleName);
    inputBuffer := inputBuffer + sample;
    if i > 0 {
      var prevName := styles[i - 1];
      inputBuffer := inputBuffer + LinkButton(prevName, "Prev");
    } else {
      inputBuffer := inputBuffer + DisabledPrev;
    }
    if i < |styles| - 1 {
      var nextName := styles[i + 1];
      inputBuffer := inputBuffer + LinkButton(nextName, "Next");
    } else {
      inputBuffer := inputBuffer + DisabledNext;
    }
    inputBuffer := inputBuffer + PageTail;
    return inputBuffer;
  }
}
