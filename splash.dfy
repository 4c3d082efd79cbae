/** splash.go: highlight the code regions of an HTML document with chroma
    and add the generated stylesheet to the document's head. */
module Splash {
  import opened Text
  import opened Chroma
  import opened Regions

  const CodeOpen := "<code>"
  const CodeClose := "</code>"
  const LanguagePrefix := "<code class=\"language-"
  const ChromaPre := "<pre class=\"chroma\">"
  const HeadClose := "</head>"
  const HtmlOpen := "<html>"

  datatype Error =
    | ErrHead           // errHEAD: neither </head> nor <html> in the document
    | ErrFormatter      // chromaHTML.New returned nil
    | ChromaError(message: string)

  /** Go's ([]byte, error) pair. */
  datatype Reply = Reply(data: string, err: Option<Error>)

  // ---------------------------------------------------------------------
  // AddCSSToHTML (lines 25-41)

  function HeadStyle(css: string): string {
    "<style>" + css + "\n    </style>\n  </head>"
  }

  function HtmlHeadStyle(css: string): string {
    "<html>\n  <head>\n    <style>" + css + "\n    </style>\n  </head>"
  }

  /** Splice a <style> block in before the first </head>, or else a head
      after the first <html>; fail with errHEAD and no bytes otherwise. */
  function AddCSSToHTML(htmlData: string, cssData: string): (r: Reply)
    ensures r.err.Some? <==> !Contains(htmlData, HeadClose) && !Contains(htmlData, HtmlOpen)
    ensures r.err.Some? ==> r == Reply([], Some(ErrHead))
  {
    if Contains(htmlData, HeadClose) then
      Reply(ReplaceFirst(htmlData, HeadClose, HeadStyle(cssData)), None)
    else if Contains(htmlData, HtmlOpen) then
      Reply(ReplaceFirst(htmlData, HtmlOpen, HtmlHeadStyle(cssData)), None)
    else
      Reply([], Some(ErrHead))
  }

  /** With a </head>, only its first occurrence changes; every other byte stays. */
  lemma AddCSSAtFirstHead(htmlData: string, cssData: string, i: nat)
    requires FirstAt(htmlData, HeadClose, i)
    ensures AddCSSToHTML(htmlData, cssData)
      == Reply(htmlData[..i] + HeadStyle(cssData) + htmlData[i + 7..], None)
  {
    FirstAtIsIndexOf(htmlData, HeadClose, i);
  }

  /** Without a </head>, the first <html> gets a head prologue. */
  lemma AddCSSAtFirstHtml(htmlData: string, cssData: string, i: nat)
    requires !Contains(htmlData, HeadClose) && FirstAt(htmlData, HtmlOpen, i)
    ensures AddCSSToHTML(htmlData, cssData)
      == Reply(htmlData[..i] + HtmlHeadStyle(cssData) + htmlData[i + 6..], None)
  {
    FirstAtIsIndexOf(htmlData, HtmlOpen, i);
  }

  // ---------------------------------------------------------------------
  // Peeling the wrapper layers of a region (lines 80-112)

  /** An open and a close tag that cannot overlap in a string that starts
      with one and ends with the other. */
  predicate TagPair(open: string, close: string) {
    |open| >= 2 && |close| >= 2 && open[0] == '<' && close[0] == '<'
    && '<' !in open[1..] && close[1] != open[1]
  }

  /** The slice s[len(open) : len(s)-len(close)] is in bounds. */
  lemma TagPairNoOverlap(s: string, open: string, close: string)
    requires TagPair(open, close) && open <= s && HasSuffix(s, close)
    ensures |open| + |close| <= |s|
  {
    var k := |s| - |close|;
    assert s[k] == '<' && s[k + 1] == close[1];
    assert forall j :: 0 <= j < |open| && j < |s| ==> s[j] == open[j];
    assert forall j :: 1 <= j < |open| ==> open[j] != '<' by {
      forall j | 1 <= j < |open| ensures open[j] != '<' { assert open[j] == open[1..][j - 1]; }
    }
  }

  /** Remove `open` and `close` when both are present. */
  function Unwrap(s: string, open: string, close: string): (r: Option<string>)
    requires TagPair(open, close)
    ensures r.Some? <==> open <= s && HasSuffix(s, close)
    ensures r.Some? ==> s == open + r.value + close
  {
    if open <= s && HasSuffix(s, close) then
      TagPairNoOverlap(s, open, close);
      Some(s[|open|..|s| - |close|])
    else None
  }

  /** Unwrap undoes wrapping a body in a tag pair. */
  lemma UnwrapWrapped(open: string, body: string, close: string)
    requires TagPair(open, close)
    ensures Unwrap(open + body + close, open, close) == Some(body)
  {
    var s := open + body + close;
    assert s[..|open|] == open;
    assert s[|s| - |close|..] == close;
    assert s[|open|..|s| - |close|] == body;
  }

  /** A body between a tag pair. */
  function Wrapped(open: string, body: string, close: string): (r: string)
    requires TagPair(open, close)
    ensures open <= r && HasSuffix(r, close)
    ensures Unwrap(r, open, close) == Some(body)
  {
    UnwrapWrapped(open, body, close);
    open + body + close
  }

  lemma Tags()
    ensures TagPair(PreOpen, PreClose) && TagPair(CodeOpen, CodeClose) && TagPair(ChromaPre, PreClose)
  {
  }

  /** The first quote of a `<code class="language-` region is its byte 12. */
  lemma FirstQuote(s: string)
    requires LanguagePrefix <= s
    ensures '"' !in s[..12] && s[12] == '"'
    ensures SplitN(s, "\"", 3) == [s[..12]] + SplitN(s[13..], "\"", 2)
    ensures "language-" <= s[13..]
  {
    var prefix := LanguagePrefix;
    assert s[..22] == prefix;
    assert forall j :: 0 <= j < 12 ==> prefix[j] != '"';
    forall j: nat | j < 12 ensures s[j] != '"' {
      assert s[j] == prefix[j];
    }
    forall j: nat | j < 12 ensures !OccursAt(s, "\"", j) {
      assert s[j..j + 1][0] == s[j];
    }
    FirstAtIsIndexOf(s, "\"", 12);
  }

  /** The first dash after `language` is its byte 8. */
  lemma FirstDash(piece: string)
    requires "language-" <= piece
    ensures SplitN(piece, "-", 2) == [piece[..8], piece[9..]]
  {
    forall j: nat | j < 8 ensures !OccursAt(piece, "-", j) {
      assert piece[j] == "language-"[j];
    }
    FirstAtIsIndexOf(piece, "-", 8);
  }

  /** A single-byte pattern is absent exactly when the byte is. */
  lemma NoByte(t: string, c: char)
    requires IndexOf(t, [c]).None?
    ensures c !in t
  {
    forall j | 0 <= j < |t| ensures t[j] != c {
      assert !OccursAt(t, [c], j);
    }
  }

  /** With a single quote, the language is everything after `language-`. */
  lemma LanguageOneQuote(s: string)
    requires LanguagePrefix <= s && IndexOf(s[13..], "\"").None?
    ensures |SplitN(s, "\"", 3)| >= 2 && SplitN(s, "\"", 3)[1] == s[13..]
    ensures SplitN(s[13..], "-", 2) == [s[13..21], s[22..]]
    ensures multiset(s)['"'] == 1
  {
    FirstQuote(s);
    var t := s[13..];
    FirstDash(t);
    assert t[..8] == s[13..21] && t[9..] == s[22..];
    NoByte(t, '"');
    assert s == s[..12] + [s[12]] + t;
    assert multiset(s) == multiset(s[..12]) + multiset([s[12]]) + multiset(t);
  }

  /** No occurrence of a byte inside a prefix that lacks it. */
  lemma NoByteInPrefix(t: string, w: string, c: char)
    requires w <= t && c !in w
    ensures forall i: nat :: i < |w| ==> !OccursAt(t, [c], i)
  {
    forall i: nat | i < |w| ensures !OccursAt(t, [c], i) {
      assert t[i] == w[i];
    }
  }

  /** The bytes before the first occurrence of a byte are free of it. */
  lemma ByteFreeBefore(t: string, c: char, j: nat)
    requires IndexOf(t, [c]) == Some(j)
    ensures j < |t| && t[j] == c
    ensures forall i :: 0 <= i < j ==> t[i] != c
  {
    forall i | 0 <= i < j ensures t[i] != c {
      assert !OccursAt(t, [c], i);
    }
  }

  /** A prefix of t is a prefix of every cut of t it fits in. */
  lemma PrefixKept(t: string, w: string, n: nat)
    requires w <= t && |w| <= n <= |t|
    ensures w <= t[..n]
  {
    assert t[..n][..|w|] == t[..|w|];
  }

  /** With a second quote at 13 + j, the second piece is s[13..13 + j]. */
  lemma SecondQuote(s: string, j: nat)
    requires LanguagePrefix <= s && IndexOf(s[13..], "\"") == Some(j)
    ensures 22 <= 13 + j < |s| && s[13 + j] == '"'
    ensures |SplitN(s, "\"", 3)| >= 2 && SplitN(s, "\"", 3)[1] == s[13..13 + j]
  {
    FirstQuote(s);
    var t := s[13..];
    assert '"' !in "language-";
    NoByteInPrefix(t, "language-", '"');
    ByteFreeBefore(t, '"', j);
    assert SplitN(t, "\"", 2) == [t[..j]] + SplitN(t[j + 1..], "\"", 1);
    assert t[..j] == s[13..13 + j];
  }

  /** With a second quote at 13 + j, the language is s[22..13 + j]. */
  lemma LanguageTwoQuotes(s: string, j: nat)
    requires LanguagePrefix <= s && IndexOf(s[13..], "\"") == Some(j)
    ensures 22 <= 13 + j < |s| && s[13 + j] == '"'
    ensures |SplitN(s, "\"", 3)| >= 2 && SplitN(s, "\"", 3)[1] == s[13..13 + j]
    ensures SplitN(s[13..13 + j], "-", 2) == [s[13..21], s[22..13 + j]]
    ensures '"' !in s[22..13 + j]
  {
    SecondQuote(s, j);
    var t := s[13..];
    var piece := s[13..13 + j];
    assert t[..j] == piece;
    PrefixKept(t, "language-", j);
    FirstDash(piece);
    assert piece[..8] == s[13..21] && piece[9..] == s[22..13 + j];
    ByteFreeBefore(t, '"', j);
    forall i | 22 <= i < 13 + j ensures s[i] != '"' {
      assert s[i] == t[i - 13];
    }
  }

  /** Both SplitN indexings of line 105 are in range once the region starts
      with `<code class="language-`; with two quotes the result is the text
      from byte 22 up to the next quote. */
  lemma LanguageSlices(s: string)
    requires LanguagePrefix <= s
    ensures |SplitN(s, "\"", 3)| >= 2
    ensures |SplitN(SplitN(s, "\"", 3)[1], "-", 2)| >= 2
    ensures multiset(s)['"'] >= 2 ==>
      var lang := SplitN(SplitN(s, "\"", 3)[1], "-", 2)[1];
      OccursAt(s, lang + "\"", 22) && '"' !in lang
  {
    FirstQuote(s);
    match IndexOf(s[13..], "\"")
    case None =>
      LanguageOneQuote(s);
    case Some(j) =>
      LanguageTwoQuotes(s, j);
      QuoteAfter(s, 22, 13 + j);
  }

  lemma QuoteAfter(s: string, lo: nat, hi: nat)
    requires lo <= hi < |s| && s[hi] == '"'
    ensures OccursAt(s, s[lo..hi] + "\"", lo)
  {
    assert s[lo..hi + 1] == s[lo..hi] + "\"";
  }

  /** Line 105: the language class, when the region starts with
      `<code class="language-` and holds two quotes: the bytes from index 22
      up to the next quote. */
  function Language(s: string): (r: Option<string>)
    ensures r.Some? <==> LanguagePrefix <= s && multiset(s)['"'] >= 2
    ensures r.Some? ==> OccursAt(s, r.value + "\"", 22) && '"' !in r.value
  {
    if LanguagePrefix <= s && multiset(s)['"'] >= 2 then
      LanguageSlices(s);
      Some(SplitN(SplitN(s, "\"", 3)[1], "-", 2)[1])
    else None
  }

  /** The slice at line 109 is in bounds: the `">` closing the long tag cannot
      lie inside the trailing </code>. */
  lemma LanguageTagNoOverlap(s: string, lang: string)
    requires LanguagePrefix + lang + "\">" <= s && HasSuffix(s, CodeClose)
    ensures |lang| + 24 + 7 <= |s|
  {
    var q := 22 + |lang|;
    assert s[q] == '"' && s[q + 1] == '>' by {
      assert (LanguagePrefix + lang + "\">")[q] == '"';
      assert (LanguagePrefix + lang + "\">")[q + 1] == '>';
    }
    assert s[|s| - 7..] == CodeClose;
    assert forall i :: |s| - 7 <= i < |s| ==> s[i] == CodeClose[i - (|s| - 7)];
    assert forall i :: |s| - 7 <= i < |s| ==> s[i] != '"';
    assert forall i :: |s| - 7 <= i < |s| - 1 ==> s[i] != '>';
  }

  /** Strip `<code class="language-LANG">` and `</code>` when both are there. */
  function UnwrapLanguage(s: string, lang: string): (r: Option<string>)
    ensures r.Some? <==> LanguagePrefix + lang + "\">" <= s && HasSuffix(s, CodeClose)
    ensures r.Some? ==> s == LanguagePrefix + lang + "\">" + r.value + CodeClose
  {
    if LanguagePrefix + lang + "\">" <= s && HasSuffix(s, CodeClose) then
      LanguageTagNoOverlap(s, lang);
      assert s[..|lang| + 24] == LanguagePrefix + lang + "\">";
      Some(s[|lang| + 24..|s| - 7])
    else None
  }

  /** What the callback learns about a region: which layers it stripped, the
      declared language ("" when none) and the text left inside. */
  datatype Peeled = Peeled(
    preTag1: bool, codeTag: bool, preTag2: bool, longerCodeTag: bool,
    language: string, source: string)

  /** The region rebuilt from what Peel recorded, with the original tags. */
  function Enclose(p: Peeled): string {
    var s3 := if p.longerCodeTag then LanguagePrefix + p.language + "\">" + p.source + CodeClose else p.source;
    var s2 := if p.preTag2 then PreOpen + s3 + PreClose else s3;
    var s1 := if p.codeTag then CodeOpen + s2 + CodeClose else s2;
    if p.preTag1 then PreOpen + s1 + PreClose else s1
  }

  /** Lines 99-112: the language class, and the text inside
      `<code class="language-X">…</code>` when both tags are there. */
  function PeelLanguage(s: string): (r: Peeled)
    ensures !r.preTag1 && !r.codeTag && !r.preTag2
    ensures r.longerCodeTag ==> Language(s) == Some(r.language)
    ensures Language(s).Some? && UnwrapLanguage(s, Language(s).value).Some? ==> r.longerCodeTag
    ensures r.language == (if Language(s).Some? then Language(s).value else "")
    ensures Enclose(r) == s
  {
    match Language(s)
    case None => Peeled(false, false, false, false, "", s)
    case Some(lang) =>
      match UnwrapLanguage(s, lang)
      case None => Peeled(false, false, false, false, lang, s)
      case Some(src) => Peeled(false, false, false, true, lang, src)
  }

  /** Lines 94-98: an inner <pre>…</pre>, then the language layer. */
  function PeelInnerPre(s: string): (r: Peeled)
    ensures !r.preTag1 && !r.codeTag
    ensures r.preTag2 <==> PreOpen <= s && HasSuffix(s, PreClose)
    ensures Enclose(r) == s
  {
    Tags();
    match Unwrap(s, PreOpen, PreClose)
    case None => PeelLanguage(s)
    case Some(t) => PeelLanguage(t).(preTag2 := true)
  }

  /** Lines 89-93: <code>…</code>, then the inner layers. */
  function PeelCode(s: string): (r: Peeled)
    ensures !r.preTag1
    ensures r.codeTag <==> CodeOpen <= s && HasSuffix(s, CodeClose)
    ensures Enclose(r) == s
  {
    Tags();
    match Unwrap(s, CodeOpen, CodeClose)
    case None => PeelInnerPre(s)
    case Some(t) => PeelInnerPre(t).(codeTag := true)
  }

  /** Lines 80-112: strip <pre>, then <code>, then <pre>, then
      <code class="language-X">, each only when its prefix and suffix are
      both present. Each step removes exactly its own tags: enclosing the
      result again gives back the region. */
  function Peel(region: string): (r: Peeled)
    ensures r.preTag1 <==> PreOpen <= region && HasSuffix(region, PreClose)
    ensures Enclose(r) == region
  {
    Tags();
    match Unwrap(region, PreOpen, PreClose)
    case None => PeelCode(region)
    case Some(t) => PeelCode(t).(preTag1 := true)
  }

  /** One of the checks of lines 80-98: when preSource starts with the open
      tag and ends with the close tag, both are cut off and the flag is set. */
  method StripTag(preSource: string, open: string, close: string) returns (rest: string, stripped: bool)
    requires TagPair(open, close)
    ensures stripped == Unwrap(preSource, open, close).Some?
    ensures rest == if stripped then Unwrap(preSource, open, close).value else preSource
  {
    rest, stripped := preSource, false;
    if open <= preSource && HasSuffix(preSource, close) {
      TagPairNoOverlap(preSource, open, close);
      rest := preSource[|open|..|preSource| - |close|];
      stripped := true;
    }
  }

  /** Lines 100-112: the language is read when the long code tag starts the
      text and two quotes are present, and that tag and </code> are cut off
      when both are there. */
  method StripLanguage(preSource: string) returns (r: Peeled)
    ensures r == PeelLanguage(preSource)
  {
    var source := preSource;
    var language := "";
    var strippedLongerCodeTag := false;
    var declared := Language(source);
    if declared.Some? {
      language := declared.value;
      if LanguagePrefix + language + "\">" <= source && HasSuffix(source, CodeClose) {
        LanguageTagNoOverlap(source, language);
        source := source[|language| + 24..|source| - 7];
        strippedLongerCodeTag := true;
      }
    }
    r := Peeled(false, false, false, strippedLongerCodeTag, language, source);
  }

  /** Lines 80-112 as the callback runs them: preSource is cut down one
      layer at a time, and a flag records each cut. */
  method StripLayers(region: string) returns (r: Peeled)
    ensures r == Peel(region)
  {
    Tags();
    var preSource := region;
    var strippedPreTag1, strippedCodeTag, strippedPreTag2;
    preSource, strippedPreTag1 := StripTag(preSource, PreOpen, PreClose);
    preSource, strippedCodeTag := StripTag(preSource, CodeOpen, CodeClose);
    preSource, strippedPreTag2 := StripTag(preSource, PreOpen, PreClose);
    var inner := StripLanguage(preSource);
    r := inner.(preTag1 := strippedPreTag1, codeTag := strippedCodeTag, preTag2 := strippedPreTag2);
  }

  // ---------------------------------------------------------------------
  // Choosing a lexer (lines 123-136)

  /** The declared language if chroma knows it, else what analysis finds,
      else C. */
  function ChooseLexer(language: string, source: string, env: Env): (r: Lexer)
    ensures language != "" && env.lexerByName(language).Some? ==> r == env.lexerByName(language).value
    ensures (language == "" || env.lexerByName(language).None?) && env.analyse(source).Some? ==>
      r == env.analyse(source).value
    ensures (language == "" || env.lexerByName(language).None?) && env.analyse(source).None? ==>
      r == CLexer
  {
    var declared := if language != "" then env.lexerByName(language) else None;
    if declared.Some? then declared.value
    else if env.analyse(source).Some? then env.analyse(source).value
    else CLexer
  }

  // ---------------------------------------------------------------------
  // Re-wrapping the highlighted markup (lines 170-187)

  /** Chroma's markup without its own `<pre class="chroma">…</pre>`, when it
      has both. */
  function ChromaBody(hi: string): string {
    Tags();
    match Unwrap(hi, ChromaPre, PreClose)
    case Some(b) => b
    case None => hi
  }

  /** Re-add plain <code> if either code layer was stripped (the language
      class is dropped), then `<pre class="chroma">` if the outer <pre> was. */
  function Reapply(p: Peeled, body: string): (r: string)
    ensures p.preTag1 ==> ChromaPre <= r && HasSuffix(r, PreClose)
    ensures !p.preTag1 && (p.codeTag || p.longerCodeTag) ==> CodeOpen <= r && HasSuffix(r, CodeClose)
    ensures !p.preTag1 && !p.codeTag && !p.longerCodeTag ==> r == body
    ensures && TagPair(ChromaPre, PreClose)
            && (p.preTag1 ==>
                  Unwrap(r, ChromaPre, PreClose) == Some(if p.codeTag || p.longerCodeTag then CodeOpen + body + CodeClose else body))
    ensures && TagPair(CodeOpen, CodeClose)
            && (!p.preTag1 && (p.codeTag || p.longerCodeTag) ==> Unwrap(r, CodeOpen, CodeClose) == Some(body))
  {
    Tags();
    var withCode := if p.codeTag || p.longerCodeTag then Wrapped(CodeOpen, body, CodeClose) else body;
    if p.preTag1 then Wrapped(ChromaPre, withCode, PreClose) else withCode
  }

  function Rewrap(p: Peeled, hi: string): string {
    Reapply(p, if !p.preTag2 then ChromaBody(hi) else hi)
  }

  // ---------------------------------------------------------------------
  // The per-region callback (lines 78-192)

  datatype Replacement = Replacement(html: string, css: string)

  /** The text handed to the lexer: the peeled source with trailing
      whitespace trimmed, unescaped on request (lines 116-121). */
  function SourceText(p: Peeled, unescape: bool, env: Env): string {
    var trimmed := TrimRight(p.source);
    if unescape then env.unescape(trimmed) else trimmed
  }

  /** What the lexer makes of a region: the peeled, trimmed and possibly
      unescaped text tokenised by the coalesced lexer chosen for it
      (lines 116-145). */
  function Lexed(region: string, unescape: bool, env: Env): Result<seq<Token>, string> {
    var p := Peel(region);
    var src := SourceText(p, unescape, env);
    env.tokenise(Coalesce(ChooseLexer(p.language, src, env)), src)
  }

  /** One region's replacement and the CSS written for it, or the first of
      the tokenise, WriteCSS and Format errors. */
  function Callback(region: string, style: Style, unescape: bool, env: Env): (r: Result<Replacement, string>)
    ensures r.Failure? <==>
      || Lexed(region, unescape, env).Failure?
      || env.writeCSS(style).Failure?
      || env.format(style, Lexed(region, unescape, env).value).Failure?
    ensures Lexed(region, unescape, env).Failure? ==>
      r == Failure(Lexed(region, unescape, env).error)
    ensures Lexed(region, unescape, env).Success? && env.writeCSS(style).Failure? ==>
      r == Failure(env.writeCSS(style).error)
    ensures
      && Lexed(region, unescape, env).Success? && env.writeCSS(style).Success?
      && env.format(style, Lexed(region, unescape, env).value).Failure?
      ==> r == Failure(env.format(style, Lexed(region, unescape, env).value).error)
    ensures r.Success? ==> env.writeCSS(style) == Success(r.value.css)
    ensures r.Success? ==>
      r.value.html == Rewrap(Peel(region), env.format(style, Lexed(region, unescape, env).value).value)
  {
    match Lexed(region, unescape, env)
    case Failure(e) => Failure(e)
    case Success(tokens) =>
      match env.writeCSS(style)
      case Failure(e) => Failure(e)
      case Success(css) =>
        match env.format(style, tokens)
        case Failure(e) => Failure(e)
        case Success(hi) => Success(Replacement(Rewrap(Peel(region), hi), css))
  }

  // ---------------------------------------------------------------------
  // The whole document (lines 55-205)

  type Outcome = Result<Replacement, string>

  function Outcomes(regions: seq<string>, style: Style, unescape: bool, env: Env): (r: seq<Outcome>)
    ensures |r| == |regions|
  {
    seq(|regions|, k requires 0 <= k < |regions| => Callback(regions[k], style, unescape, env))
  }

  /** What the callback returns for each region: the replacement, or no bytes
      after an error. */
  function Reps(outs: seq<Outcome>): (r: seq<string>)
    ensures |r| == |outs|
  {
    seq(|outs|, k requires 0 <= k < |outs| => if outs[k].Success? then outs[k].value.html else [])
  }

  /** cssBuf after the scan: the CSS of every successful region, in order. */
  function AllCss(outs: seq<Outcome>): string {
    if |outs| == 0 then []
    else AllCss(outs[..|outs| - 1]) + (if outs[|outs| - 1].Success? then outs[|outs| - 1].value.css else [])
  }

  /** The index of the last failing region, if any. */
  function LastFailure(outs: seq<Outcome>): (r: Option<nat>)
    ensures r.None? <==> forall k :: 0 <= k < |outs| ==> outs[k].Success?
    ensures r.Some? ==> r.value < |outs| && outs[r.value].Failure?
    ensures r.Some? ==> forall j :: r.value < j < |outs| ==> outs[j].Success?
  {
    if |outs| == 0 then None
    else if outs[|outs| - 1].Failure? then Some(|outs| - 1)
    else
      var init := outs[..|outs| - 1];
      assert forall k :: 0 <= k < |init| ==> init[k] == outs[k];
      LastFailure(init)
  }

  /** outerErr after the scan: every failing region overwrites it, so the
      last failure wins. */
  function LastError(outs: seq<Outcome>): Option<string> {
    match LastFailure(outs)
    case None => None
    case Some(k) => Some(outs[k].error)
  }

  lemma LastErrorStep(outs: seq<Outcome>, k: nat)
    requires k < |outs|
    ensures LastError(outs[..k + 1])
      == if outs[k].Failure? then Some(outs[k].error) else LastError(outs[..k])
  {
    assert outs[..k + 1][..k] == outs[..k];
  }

  lemma AllCssStep(outs: seq<Outcome>, k: nat)
    requires k < |outs|
    ensures AllCss(outs[..k + 1])
      == AllCss(outs[..k]) + if outs[k].Success? then outs[k].value.css else []
  {
    assert outs[..k + 1][..k] == outs[..k];
  }

  /** What Splash returns for a document. */
  function Highlighted(htmlData: string, styleName: string, unescape: bool, env: Env): Reply
  {
    if !env.formatterOk then Reply([], Some(ErrFormatter))
    else
      var spans := Matches(htmlData, 0);
      Assemble(htmlData, spans, Outcomes(Texts(htmlData, spans), ResolveStyle(styleName, env), unescape, env))
  }

  /** The result once every region has been through the callback. */
  function Assemble(htmlData: string, spans: seq<Span>, outs: seq<Outcome>): Reply
    requires InOrder(htmlData, spans, 0) && |outs| == |spans|
  {
    match LastError(outs)
    case Some(e) => Reply([], Some(ChromaError(e)))
    case None => AddCSSToHTML(Splice(htmlData, spans, Reps(outs), 0), AllCss(outs))
  }

  /** regexp.ReplaceAllFunc with the callback of lines 78-192: each region in
      turn is replaced by what the callback returns (nothing after an
      error), CSS is appended to cssBuf, and every error overwrites
      outerErr. */
  method ReplaceRegions(htmlData: string, spans: seq<Span>, style: Style, unescape: bool, env: Env)
    returns (mutableBytes: string, cssBuf: string, outerErr: Option<string>)
    requires InOrder(htmlData, spans, 0)
    ensures var outs := Outcomes(Texts(htmlData, spans), style, unescape, env);
      && mutableBytes == Splice(htmlData, spans, Reps(outs), 0)
      && cssBuf == AllCss(outs)
      && outerErr == LastError(outs)
  {
    var regions := Texts(htmlData, spans);
    ghost var outs := Outcomes(regions, style, unescape, env);
    ghost var reps := Reps(outs);
    cssBuf := [];
    outerErr := None;
    mutableBytes := [];
    var pos: nat := 0;
    for k := 0 to |spans|
      invariant pos == EndOf(spans, k)
      invariant mutableBytes == Emitted(htmlData, spans, reps, k)
      invariant outerErr == LastError(outs[..k])
      invariant cssBuf == AllCss(outs[..k])
    {
      var hiBytes: string := [];
      var outcome := Callback(regions[k], style, unescape, env);
      assert outcome == outs[k];
      if outcome.Failure? {
        outerErr := Some(outcome.error);
      } else {
        hiBytes := outcome.value.html;
        cssBuf := cssBuf + outcome.value.css;
      }
      assert hiBytes == reps[k];
      LastErrorStep(outs, k);
      AllCssStep(outs, k);
      mutableBytes := mutableBytes + htmlData[pos..spans[k].start] + hiBytes;
      pos := spans[k].end;
    }
    assert outs[..|spans|] == outs;
    EmittedSplice(htmlData, spans, reps, |spans|);
    mutableBytes := mutableBytes + htmlData[pos..];
  }

  /** Splash: resolve the style, check the formatter, highlight every region,
      then add the collected stylesheet to the head. */
  method Splash(htmlData: string, styleName: string, unescape: bool, env: Env)
    returns (out: string, err: Option<Error>)
    ensures Reply(out, err) == Highlighted(htmlData, styleName, unescape, env)
  {
    var style := ResolveStyle(styleName, env);
    if !env.formatterOk {
      return [], Some(ErrFormatter);
    }
    var spans := Matches(htmlData, 0);
    var mutableBytes, cssBuf, outerErr := ReplaceRegions(htmlData, spans, style, unescape, env);
    if outerErr.Some? {
      return [], Some(ChromaError(outerErr.value));
    }
    var r := AddCSSToHTML(mutableBytes, cssBuf);
    out, err := r.data, r.err;
  }

  // ---------------------------------------------------------------------
  // Properties of the region pass

  /** No "</pre>" anywhere in t. */
  ghost predicate NoPreClose(t: string) {
    forall j: nat :: !OccursAt(t, PreClose, j)
  }

  lemma NoPreCloseInner(t: string, open: string, u: string, close: string)
    requires t == open + u + close && NoPreClose(t)
    ensures NoPreClose(u)
  {
    forall j: nat | OccursAt(u, PreClose, j) ensures false {
      assert t[|open| + j..|open| + j + 6] == u[j..j + 6];
      assert OccursAt(t, PreClose, |open| + j);
    }
  }

  lemma InnerPreNeedsClose(u: string)
    requires NoPreClose(u)
    ensures !PeelInnerPre(u).preTag2
  {
    Tags();
    assert !HasSuffix(u, PreClose) by {
      assert |u| >= 6 ==> !OccursAt(u, PreClose, |u| - 6);
    }
  }

  lemma CodeNeedsClose(t: string)
    requires NoPreClose(t)
    ensures !PeelCode(t).preTag2
  {
    Tags();
    match Unwrap(t, CodeOpen, CodeClose)
    case None => InnerPreNeedsClose(t);
    case Some(v) =>
      NoPreCloseInner(t, CodeOpen, v, CodeClose);
      InnerPreNeedsClose(v);
  }

  /** The inside of a "<pre>" region holds no "</pre>". */
  lemma PlainRegionInside(s: string, i: nat, e: nat)
    requires i <= |s| && MatchAt(s, i) == Some(e) && OccursAt(s, PreOpen, i)
    ensures s[i..e] == PreOpen + s[i + 5..e - 6] + PreClose
    ensures NoPreClose(s[i + 5..e - 6])
  {
    assert i + 11 <= e <= |s|;
    PlainMatchEnd(s, i);
    var t := s[i + 5..e - 6];
    assert s[i..e] == s[i..i + 5] + t + s[e - 6..e];
    forall j: nat | OccursAt(t, PreClose, j) ensures false {
      OccursInSlice(s, i + 5, e - 6, PreClose, j);
    }
  }

  /** The second <pre> strip (strippedPreTag2) never happens for a region the
      scan finds: a "<pre>" region holds no "</pre>" between its own tags, and
      a "<pre " region does not start with "<pre>" or "<code>". */
  lemma PreTag2NeverStripped(s: string, i: nat, e: nat)
    requires i <= |s| && MatchAt(s, i) == Some(e)
    ensures !Peel(s[i..e]).preTag2
  {
    Tags();
    assert i + 11 <= e <= |s|;
    var region := s[i..e];
    if OccursAt(s, PreOpen, i) {
      PlainRegionInside(s, i, e);
      var t := s[i + 5..e - 6];
      assert Unwrap(region, PreOpen, PreClose) == Some(t);
      CodeNeedsClose(t);
    } else {
      assert region[..5] == s[i..i + 5];
      assert region[4] == ' ' && region[1] == 'p';
      assert !(PreOpen <= region) && !(CodeOpen <= region);
    }
  }

  /** For every region the scan finds, chroma's own `<pre class="chroma">`
      wrapper is removed before the stripped layers are put back. */
  lemma ChromaWrapperRemoved(s: string, i: nat, e: nat, body: string)
    requires i <= |s| && MatchAt(s, i) == Some(e)
    ensures Rewrap(Peel(s[i..e]), ChromaPre + body + PreClose) == Reapply(Peel(s[i..e]), body)
  {
    PreTag2NeverStripped(s, i, e);
    ChromaBodyOfWrapped(body);
  }

  lemma ChromaBodyOfWrapped(body: string)
    ensures ChromaBody(ChromaPre + body + PreClose) == body
  {
    Tags();
    UnwrapWrapped(ChromaPre, body, PreClose);
  }

  /** When every region succeeds with the same stylesheet, cssBuf holds it
      once per region. */
  lemma {:induction false} CssOncePerRegion(outs: seq<Outcome>, css: string)
    requires forall k :: 0 <= k < |outs| ==> outs[k].Success? && outs[k].value.css == css
    ensures AllCss(outs) == Repeat(css, |outs|)
  {
    if |outs| > 0 {
      var init := outs[..|outs| - 1];
      assert forall k :: 0 <= k < |init| ==> init[k] == outs[k];
      CssOncePerRegion(init, css);
    }
  }

  /** A failing region makes Splash return no bytes and the error of the
      last failing region. */
  lemma AssembleAbortsOnError(htmlData: string, spans: seq<Span>, outs: seq<Outcome>, k: nat)
    requires InOrder(htmlData, spans, 0) && |outs| == |spans|
    requires k < |outs| && outs[k].Failure? && forall j :: k < j < |outs| ==> outs[j].Success?
    ensures Assemble(htmlData, spans, outs) == Reply([], Some(ChromaError(outs[k].error)))
  {
    assert LastFailure(outs) == Some(k);
  }

  /** When every region succeeds with the same stylesheet, the regions are
      replaced, the bytes between them are kept, and the stylesheet goes into
      the head once per region. */
  lemma AssembleSucceeds(htmlData: string, spans: seq<Span>, outs: seq<Outcome>, css: string)
    requires InOrder(htmlData, spans, 0) && |outs| == |spans|
    requires forall k :: 0 <= k < |outs| ==> outs[k].Success? && outs[k].value.css == css
    ensures Assemble(htmlData, spans, outs)
      == AddCSSToHTML(Splice(htmlData, spans, Reps(outs), 0), Repeat(css, |spans|))
  {
    CssOncePerRegion(outs, css);
  }

  /** Every region that succeeds wrote the style's own stylesheet. */
  lemma OutcomesWriteStyleCss(regions: seq<string>, style: Style, unescape: bool, env: Env, css: string)
    requires env.writeCSS(style) == Success(css)
    ensures forall k :: 0 <= k < |regions| && Outcomes(regions, style, unescape, env)[k].Success? ==>
      Outcomes(regions, style, unescape, env)[k].value.css == css
  {
  }
}
