/** The tag-count invariant of the highlighter: rewriting a document keeps
    the number of `<pre` and `<code` openers, as long as what chroma and
    the document put inside the regions holds none. */
module TagCount {
  import opened Text
  import opened Counting
  import opened Chroma
  import opened Regions
  import opened Splash

  /** The two openers whose counts the rewrite keeps. */
  predicate Tag(p: string) {
    p == "<pre" || p == "<code"
  }

  /** An opener whose second byte is 'p' or 'c', as both tags' are: none of
      the fixed closing, style or head tags can hold it. */
  predicate TagOpener(p: string) {
    Opener(p) && (p[1] == 'p' || p[1] == 'c')
  }

  lemma TagIsOpener(p: string)
    requires Tag(p)
    ensures TagOpener(p)
  {
    OpenerTags();
  }

  /** A byte string with a single '<', in front: it holds `p` once exactly
      when it starts with `p`. */
  lemma LiteralCount(t: string, p: string, n: nat)
    requires Opener(p) && |t| >= 2 && forall i :: 1 <= i < |t| ==> t[i] != '<'
    requires (n == 1 && p <= t) || (n == 0 && t[1] != p[1])
    ensures Count(t, p) == n
  {
    CountSingleLt(t, p);
    assert OccursAt(t, p, 0) ==> t[1] == p[1];
  }

  lemma PreOpenCounts()
    ensures Count(PreOpen, "<pre") == 1 && Count(PreOpen, "<code") == 0
  {
    OpenerTags();
    LiteralCount(PreOpen, "<pre", 1);
    LiteralCount(PreOpen, "<code", 0);
  }

  lemma ChromaPreCountsPre()
    ensures Count(ChromaPre, "<pre") == 1
  {
    OpenerTags();
    LiteralCount(ChromaPre, "<pre", 1);
  }

  lemma ChromaPreCountsCode()
    ensures Count(ChromaPre, "<code") == 0
  {
    OpenerTags();
    LiteralCount(ChromaPre, "<code", 0);
  }

  lemma CodeOpenCounts()
    ensures Count(CodeOpen, "<pre") == 0 && Count(CodeOpen, "<code") == 1
  {
    OpenerTags();
    LiteralCount(CodeOpen, "<pre", 0);
    LiteralCount(CodeOpen, "<code", 1);
  }

  lemma LanguagePrefixCountsPre()
    ensures Count(LanguagePrefix, "<pre") == 0
  {
    OpenerTags();
    LiteralCount(LanguagePrefix, "<pre", 0);
  }

  lemma LanguagePrefixCountsCode()
    ensures Count(LanguagePrefix, "<code") == 1
  {
    OpenerTags();
    LiteralCount(LanguagePrefix, "<code", 1);
  }

  /** `<pre class="chroma">` stands for <pre> and a plain <code> for
      `<code class="language-`: each pair holds the same number of either
      tag. */
  lemma TagPairsAgree(p: string)
    requires Tag(p)
    ensures Count(PreOpen, p) == Count(ChromaPre, p)
    ensures Count(CodeOpen, p) == Count(LanguagePrefix, p)
  {
    PreOpenCounts();
    ChromaPreCountsPre();
    ChromaPreCountsCode();
    CodeOpenCounts();
    LanguagePrefixCountsPre();
    LanguagePrefixCountsCode();
  }

  /** A closing tag holds no opener. */
  lemma CloserCount(t: string, p: string)
    requires TagOpener(p) && |t| >= 2 && t[1] == '/' && forall i :: 1 <= i < |t| ==> t[i] != '<'
    ensures Count(t, p) == 0
  {
    LiteralCount(t, p, 0);
  }

  /** A tag pair around `mid` adds the pair's own openers and no others. */
  lemma WrappedCount(open: string, mid: string, close: string, p: string)
    requires Opener(p) && |open| > 0 && open[|open| - 1] == '>' && |close| > 0 && close[0] == '<'
    ensures Count(open + mid + close, p) == Count(open, p) + Count(mid, p) + Count(close, p)
  {
    Glue(mid, close, p);
    Glue(open, mid + close, p);
    assert open + mid + close == open + (mid + close);
  }

  lemma LanguageLayerCount(lang: string, src: string, p: string)
    requires TagOpener(p)
    ensures Count(LanguagePrefix + lang + "\">" + src + CodeClose, p)
      == Count(LanguagePrefix, p) + Count(lang, p) + Count(src, p)
  {
    var close := CodeClose;
    CloserCount(close, p);
    var tail := src + close;
    Glue(src, close, p);
    var quote := "\">";
    CountWithoutLt(quote, p);
    Glue(quote, tail, p);
    var quoted := quote + tail;
    Glue(lang, quoted, p);
    var named := lang + quoted;
    var prefix := LanguagePrefix;
    assert prefix[|prefix| - 1] == '-';
    Glue(prefix, named, p);
    assert LanguagePrefix + lang + "\">" + src + CodeClose == prefix + named;
  }

  /** The openers in the layers Peel removed, the language name included. */
  function Stripped(r: Peeled, p: string): nat
    requires |p| > 0
  {
    (if r.preTag1 then Count(PreOpen, p) else 0)
    + (if r.codeTag then Count(CodeOpen, p) else 0)
    + (if r.preTag2 then Count(PreOpen, p) else 0)
    + (if r.longerCodeTag then Count(LanguagePrefix, p) + Count(r.language, p) else 0)
  }

  /** A region's openers are those of its stripped layers plus those of the
      text inside. */
  lemma EncloseCount(r: Peeled, p: string)
    requires TagOpener(p)
    ensures Count(Enclose(r), p) == Stripped(r, p) + Count(r.source, p)
  {
    var preClose, codeClose := PreClose, CodeClose;
    CloserCount(preClose, p);
    CloserCount(codeClose, p);
    var s3 := if r.longerCodeTag then LanguagePrefix + r.language + "\">" + r.source + CodeClose else r.source;
    if r.longerCodeTag {
      LanguageLayerCount(r.language, r.source, p);
    }
    var s2 := if r.preTag2 then PreOpen + s3 + PreClose else s3;
    WrappedCount(PreOpen, s3, preClose, p);
    var s1 := if r.codeTag then CodeOpen + s2 + CodeClose else s2;
    WrappedCount(CodeOpen, s2, codeClose, p);
    WrappedCount(PreOpen, s1, preClose, p);
  }

  /** The openers of a re-wrapped body: `<pre class="chroma">` for the outer
      <pre>, one plain <code> for either code layer, and the body's own. */
  lemma ReapplyCount(r: Peeled, body: string, p: string)
    requires TagOpener(p)
    ensures Count(Reapply(r, body), p)
      == (if r.preTag1 then Count(ChromaPre, p) else 0)
       + (if r.codeTag || r.longerCodeTag then Count(CodeOpen, p) else 0)
       + Count(body, p)
  {
    var preClose, codeClose := PreClose, CodeClose;
    CloserCount(preClose, p);
    CloserCount(codeClose, p);
    var withCode := if r.codeTag || r.longerCodeTag then CodeOpen + body + CodeClose else body;
    WrappedCount(CodeOpen, body, codeClose, p);
    WrappedCount(ChromaPre, withCode, preClose, p);
  }

  /** Re-wrapping keeps the count of the layers Peel recorded, when the
      inner <pre> was not stripped, not both code layers were, and the
      source, the language name and chroma's body hold no `p`. */
  lemma RewrapKeepsCount(r: Peeled, hi: string, p: string)
    requires TagOpener(p)
    requires Count(PreOpen, p) == Count(ChromaPre, p) && Count(CodeOpen, p) == Count(LanguagePrefix, p)
    requires !r.preTag2 && !(r.codeTag && r.longerCodeTag)
    requires Count(r.source, p) == 0 && (r.longerCodeTag ==> Count(r.language, p) == 0)
    requires Count(ChromaBody(hi), p) == 0
    ensures Count(Rewrap(r, hi), p) == Count(Enclose(r), p)
  {
    EncloseCount(r, p);
    ReapplyCount(r, ChromaBody(hi), p);
  }

  /** With both code layers stripped, one `<code` is not put back. */
  lemma RewrapDoubleCode(r: Peeled, hi: string, p: string)
    requires TagOpener(p) && Count(CodeOpen, p) == 1
    requires Count(PreOpen, p) == Count(ChromaPre, p) && Count(CodeOpen, p) == Count(LanguagePrefix, p)
    requires !r.preTag2 && r.codeTag && r.longerCodeTag
    requires Count(r.source, p) == 0 && Count(r.language, p) == 0
    requires Count(ChromaBody(hi), p) == 0
    ensures Count(Rewrap(r, hi), p) + 1 == Count(Enclose(r), p)
  {
    EncloseCount(r, p);
    ReapplyCount(r, ChromaBody(hi), p);
  }

  /** A region the scan finds keeps its count of `p` after rewriting, when
      the text inside, the language name and chroma's body hold no `p` and
      not both code layers were stripped. */
  lemma RegionKeepsCount(s: string, i: nat, e: nat, hi: string, p: string)
    requires i <= |s| && MatchAt(s, i) == Some(e) && Tag(p)
    requires var r := Peel(s[i..e]);
      && !(r.codeTag && r.longerCodeTag)
      && Count(r.source, p) == 0
      && (r.longerCodeTag ==> Count(r.language, p) == 0)
      && Count(ChromaBody(hi), p) == 0
    ensures Count(Rewrap(Peel(s[i..e]), hi), p) == Count(s[i..e], p)
  {
    PreTag2NeverStripped(s, i, e);
    TagIsOpener(p);
    TagPairsAgree(p);
    RewrapKeepsCount(Peel(s[i..e]), hi, p);
  }

  /** A region wrapped in <code><code class="language-X"> comes back with a
      single plain <code>: one `<code` opener is lost. */
  lemma DoubleCodeLosesOne(s: string, i: nat, e: nat, hi: string)
    requires i <= |s| && MatchAt(s, i) == Some(e)
    requires var r := Peel(s[i..e]);
      && r.codeTag && r.longerCodeTag
      && Count(r.source, "<code") == 0
      && Count(r.language, "<code") == 0
      && Count(ChromaBody(hi), "<code") == 0
    ensures Count(Rewrap(Peel(s[i..e]), hi), "<code") + 1 == Count(s[i..e], "<code")
  {
    PreTag2NeverStripped(s, i, e);
    var code := "<code";
    TagIsOpener(code);
    TagPairsAgree(code);
    CodeOpenCounts();
    RewrapDoubleCode(Peel(s[i..e]), hi, code);
  }

  // ---------------------------------------------------------------------
  // The whole document

  /** t starts with '<' and ends with '>'. */
  predicate Bracketed(t: string) {
    |t| > 0 && t[0] == '<' && t[|t| - 1] == '>'
  }

  /** Replacing bracketed spans by bracketed text with as many openers keeps
      the document's count. */
  lemma {:induction false} SpliceKeepsCount(s: string, spans: seq<Span>, reps: seq<string>, from: nat, p: string)
    requires Opener(p) && InOrder(s, spans, from) && |reps| == |spans|
    requires forall k :: 0 <= k < |spans| ==>
      && Bracketed(s[spans[k].start..spans[k].end])
      && Bracketed(reps[k])
      && Count(reps[k], p) == Count(s[spans[k].start..spans[k].end], p)
    ensures Count(Splice(s, spans, reps, from), p) == Count(s[from..], p)
    decreases |spans|
  {
    if spans != [] {
      var sp := spans[0];
      var gap := s[from..sp.start];
      var region := s[sp.start..sp.end];
      assert Bracketed(region) && Bracketed(reps[0]);
      assert InOrder(s, spans[1..], sp.end);
      SpliceKeepsCount(s, spans[1..], reps[1..], sp.end, p);
      var rest := Splice(s, spans[1..], reps[1..], sp.end);
      Glue3(gap, reps[0], rest, p);
      Glue3(gap, region, s[sp.end..], p);
      assert s[from..] == gap + region + s[sp.end..];
    }
  }

  /** The closing part of both style blocks holds no opener. */
  lemma StyleTailCount(p: string)
    requires TagOpener(p)
    ensures Count("\n    </style>\n  </head>", p) == 0
  {
    var indent, style, head := "\n    ", "</style>\n  ", "</head>";
    CountWithoutLt(indent, p);
    CloserCount(style, p);
    CloserCount(head, p);
    Glue(style, head, p);
    Glue(indent, style + head, p);
    assert "\n    </style>\n  </head>" == indent + (style + head);
  }

  /** The opening part of the <html> fallback holds no opener. */
  lemma HtmlHeadCount(p: string)
    requires TagOpener(p)
    ensures Count("<html>\n  <head>\n    <style>", p) == 0
  {
    var html, head, style := "<html>\n  ", "<head>\n    ", "<style>";
    LiteralCount(html, p, 0);
    LiteralCount(head, p, 0);
    LiteralCount(style, p, 0);
    Glue(head, style, p);
    Glue(html, head + style, p);
    assert "<html>\n  <head>\n    <style>" == html + (head + style);
  }

  /** The openers of HeadStyle(css) and HtmlHeadStyle(css) are the
      stylesheet's own. */
  lemma StyleBlockCount(css: string, p: string)
    requires TagOpener(p)
    ensures Count(HeadStyle(css), p) == Count(css, p)
    ensures Count(HtmlHeadStyle(css), p) == Count(css, p)
  {
    var tail := "\n    </style>\n  </head>";
    StyleTailCount(p);
    Glue(css, tail, p);
    var style := "<style>";
    LiteralCount(style, p, 0);
    Glue(style, css + tail, p);
    assert HeadStyle(css) == style + (css + tail);
    var head := "<html>\n  <head>\n    <style>";
    HtmlHeadCount(p);
    Glue(head, css + tail, p);
    assert HtmlHeadStyle(css) == head + (css + tail);
  }

  /** Replacing a bracketed anchor without openers by bracketed text keeps
      the count up to that text's own openers. */
  lemma ReplaceAnchorCount(doc: string, anchor: string, block: string, i: nat, p: string)
    requires Opener(p) && Bracketed(anchor) && Bracketed(block) && Count(anchor, p) == 0
    requires FirstAt(doc, anchor, i)
    ensures Count(ReplaceFirst(doc, anchor, block), p) == Count(doc, p) + Count(block, p)
  {
    ReplaceFirstAt(doc, anchor, block, i);
    var a := doc[..i];
    var b := doc[i + |anchor|..];
    assert doc == a + anchor + b;
    Glue3(a, anchor, b, p);
    Glue3(a, block, b, p);
  }

  /** Adding the stylesheet keeps the document's count when the stylesheet
      holds no `p`; on errHEAD there are no bytes at all. */
  lemma AddCSSKeepsCount(doc: string, css: string, p: string)
    requires TagOpener(p) && Count(css, p) == 0
    ensures Count(AddCSSToHTML(doc, css).data, p)
      == if AddCSSToHTML(doc, css).err.None? then Count(doc, p) else 0
  {
    StyleBlockCount(css, p);
    var headClose, htmlOpen := HeadClose, HtmlOpen;
    CloserCount(headClose, p);
    LiteralCount(htmlOpen, p, 0);
    match IndexOf(doc, HeadClose)
    case Some(i) =>
      ReplaceAnchorCount(doc, headClose, HeadStyle(css), i, p);
    case None =>
      match IndexOf(doc, HtmlOpen)
      case Some(i) =>
        ReplaceAnchorCount(doc, htmlOpen, HtmlHeadStyle(css), i, p);
      case None =>
  }

  // ---------------------------------------------------------------------
  // Splash as a whole

  /** No '<' anywhere in t. */
  predicate LtFree(t: string) {
    forall i :: 0 <= i < |t| ==> t[i] != '<'
  }

  /** What a region must satisfy for its rewrite to keep its count of `p`:
      not both code layers, and no `p` in the text inside, in the language
      name or in chroma's body. */
  predicate RegionClean(region: string, style: Style, unescape: bool, env: Env, p: string)
    requires |p| > 0
  {
    var r := Peel(region);
    && !(r.codeTag && r.longerCodeTag)
    && Count(r.source, p) == 0
    && (r.longerCodeTag ==> Count(r.language, p) == 0)
    && (Callback(region, style, unescape, env).Success? ==>
          Count(ChromaBody(env.format(style, Lexed(region, unescape, env).value).value), p) == 0)
  }

  /** A plain `<pre>` region that the callback rewrites comes back
      bracketed by `<pre class="chroma">` and `</pre>`, with as many `p`
      as it had. */
  lemma CallbackKeepsCount(s: string, i: nat, e: nat, style: Style, unescape: bool, env: Env, p: string)
    requires i <= |s| && MatchAt(s, i) == Some(e) && OccursAt(s, PreOpen, i) && Tag(p)
    requires Callback(s[i..e], style, unescape, env).Success?
    requires RegionClean(s[i..e], style, unescape, env, p)
    ensures var html := Callback(s[i..e], style, unescape, env).value.html;
      && Bracketed(html) && Bracketed(s[i..e])
      && Count(html, p) == Count(s[i..e], p)
  {
    var region := s[i..e];
    var hi := env.format(style, Lexed(region, unescape, env).value).value;
    RegionKeepsCount(s, i, e, hi, p);
    PlainRegionInside(s, i, e);
    assert PreOpen <= region && HasSuffix(region, PreClose);
    var html := Rewrap(Peel(region), hi);
    assert ChromaPre <= html && HasSuffix(html, PreClose);
    assert html[0] == ChromaPre[0] && html[|html| - 1] == PreClose[5];
    assert region[0] == PreOpen[0] && region[|region| - 1] == PreClose[5];
  }

  /** The stylesheets of the regions, run together, hold no '<' when each
      does. */
  lemma {:induction false} AllCssLtFree(outs: seq<Outcome>)
    requires forall k :: 0 <= k < |outs| && outs[k].Success? ==> LtFree(outs[k].value.css)
    ensures LtFree(AllCss(outs))
  {
    if |outs| > 0 {
      var init := outs[..|outs| - 1];
      assert forall k :: 0 <= k < |init| ==> init[k] == outs[k];
      AllCssLtFree(init);
    }
  }

  /** When every region's replacement is bracketed and keeps its count and
      no stylesheet holds '<', a result without error has the document's
      count. */
  lemma AssembleKeepsCount(s: string, spans: seq<Span>, outs: seq<Outcome>, p: string)
    requires TagOpener(p) && InOrder(s, spans, 0) && |outs| == |spans|
    requires forall k :: 0 <= k < |spans| && outs[k].Success? ==>
      && Bracketed(s[spans[k].start..spans[k].end])
      && Bracketed(outs[k].value.html)
      && Count(outs[k].value.html, p) == Count(s[spans[k].start..spans[k].end], p)
    requires forall k :: 0 <= k < |outs| && outs[k].Success? ==> LtFree(outs[k].value.css)
    ensures Assemble(s, spans, outs).err.None? ==> Count(Assemble(s, spans, outs).data, p) == Count(s, p)
  {
    if LastError(outs).None? {
      var reps := Reps(outs);
      assert forall k :: 0 <= k < |outs| ==> outs[k].Success? && reps[k] == outs[k].value.html;
      SpliceKeepsCount(s, spans, reps, 0, p);
      AllCssLtFree(outs);
      CountWithoutLt(AllCss(outs), p);
      AddCSSKeepsCount(Splice(s, spans, reps, 0), AllCss(outs), p);
      assert s[0..] == s;
    }
  }

  /** The tag-count invariant: when every region Splash finds is a plain
      `<pre>` region that is clean for `p` and the style's stylesheet holds
      no '<', a run without error returns a document with as many `p`
      openers as the input. */
  lemma HighlightKeepsCount(s: string, styleName: string, unescape: bool, env: Env, p: string)
    requires Tag(p)
    requires var style := ResolveStyle(styleName, env);
      forall sp :: sp in Matches(s, 0) ==>
        OccursAt(s, PreOpen, sp.start) && RegionClean(s[sp.start..sp.end], style, unescape, env, p)
    requires env.writeCSS(ResolveStyle(styleName, env)).Success? ==>
      LtFree(env.writeCSS(ResolveStyle(styleName, env)).value)
    ensures Highlighted(s, styleName, unescape, env).err.None? ==>
      Count(Highlighted(s, styleName, unescape, env).data, p) == Count(s, p)
  {
    if env.formatterOk {
      var style := ResolveStyle(styleName, env);
      var spans := Matches(s, 0);
      var outs := Outcomes(Texts(s, spans), style, unescape, env);
      forall k | 0 <= k < |spans| && outs[k].Success?
        ensures Bracketed(s[spans[k].start..spans[k].end])
        ensures Bracketed(outs[k].value.html)
        ensures Count(outs[k].value.html, p) == Count(s[spans[k].start..spans[k].end], p)
        ensures LtFree(outs[k].value.css)
      {
        assert spans[k] in spans;
        CallbackKeepsCount(s, spans[k].start, spans[k].end, style, unescape, env, p);
      }
      TagIsOpener(p);
      AssembleKeepsCount(s, spans, outs, p);
    }
  }
}
