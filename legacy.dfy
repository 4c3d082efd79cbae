/** The older highlighter of main.go: a head-only stylesheet splice and a
    loop that replaces the first occurrence of each code tag's text. The
    HTML parse and the tag search (gohtml.Parse, scrape.FindAll and
    scrape.TextJoin) are not modelled: the loop takes the texts of the
    tags it would visit, in order. log.Fatal, and the panic on the nil
    iterator that a failed Tokenise leaves behind, end the run as a
    Crash. */
module Legacy {
  import opened Text
  import opened Chroma

  // main.go declares its own copy of the constant splash.go also has.
  const HeadClose := "</head>"
  const HeadMissing := "HTML must contain </head> when adding CSS"

  datatype Reply = Reply(data: string, err: Option<string>)

  /** The block that takes the place of the first </head>. */
  function StyleBlock(css: string): string {
    "<style>" + css + "</style></head>"
  }

  /** AddCSSToHTML of main.go: fails, with no bytes, unless the document
      has a </head>; there is no <html> fallback. */
  function AddCSSToHTML(htmlData: string, cssData: string): (r: Reply)
    ensures r.err.Some? <==> !Contains(htmlData, HeadClose)
    ensures r.err.Some? ==> r == Reply([], Some(HeadMissing))
    ensures r.err.None? ==> |r.data| == |htmlData| + |cssData| + 15
  {
    if !Contains(htmlData, HeadClose) then Reply([], Some(HeadMissing))
    else Reply(ReplaceFirst(htmlData, HeadClose, StyleBlock(cssData)), None)
  }

  /** Only the first </head> changes; every other byte is kept. */
  lemma AddCSSAtFirstHead(htmlData: string, cssData: string, i: nat)
    requires FirstAt(htmlData, HeadClose, i)
    ensures AddCSSToHTML(htmlData, cssData)
      == Reply(htmlData[..i] + "<style>" + cssData + "</style></head>" + htmlData[i + 7..], None)
  {
    ReplaceFirstAt(htmlData, HeadClose, StyleBlock(cssData), i);
    ContainsAt(htmlData, HeadClose, i);
  }

  /** strings.Join(s, ""). */
  function TextJoiner(s: seq<string>): string {
    JoinWith(s, "")
  }

  /** The strings in order, nothing between them. */
  lemma {:induction false} TextJoinerAppend(s: seq<string>, t: string)
    ensures TextJoiner(s + [t]) == TextJoiner(s) + t
    decreases |s|
  {
    if |s| == 1 {
      var pair := [s[0], t];
      assert s + [t] == pair && pair[1..] == [t];
      assert JoinWith(pair[1..], "") == t;
    } else if |s| > 1 {
      TextJoinerAppend(s[1..], t);
      assert (s + [t])[1..] == s[1..] + [t];
    }
  }

  /** The length of the joined text is the sum of the lengths. */
  function TotalLength(s: seq<string>): nat {
    if |s| == 0 then 0 else TotalLength(s[..|s| - 1]) + |s[|s| - 1]|
  }

  lemma {:induction false} TextJoinerLength(s: seq<string>)
    ensures |TextJoiner(s)| == TotalLength(s)
    decreases |s|
  {
    if |s| > 0 {
      var init := s[..|s| - 1];
      TextJoinerLength(init);
      TextJoinerAppend(init, s[|s| - 1]);
      assert init + [s[|s| - 1]] == s;
    }
  }

  // ---------------------------------------------------------------------
  // The Splash loop (lines 38-97)

  /** Why the run stopped: the formatter was nil, WriteCSS or Format failed,
      Tokenise failed (its error is dropped and Format then calls a nil
      iterator), or the document has no </head>. */
  datatype Fault =
    | NoFormatter
    | CssFailed(message: string)
    | NilIterator
    | FormatFailed(message: string)
    | NoHead(message: string)

  datatype Run = Done(html: string) | Crash(fault: Fault)

  /** What one tag adds: the stylesheet and the highlighted markup. */
  datatype Piece = Piece(css: string, markup: string)

  /** The lexer for a tag's text: the analysed one, else the fallback. */
  function TagLexer(source: string, env: Env): (r: Lexer)
    ensures env.analyse(source).Some? ==> r == env.analyse(source).value
    ensures env.analyse(source).None? ==> r == env.fallbackLexer
  {
    match env.analyse(source)
    case Some(l) => l
    case None => env.fallbackLexer
  }

  /** The body of the loop for one tag, in the order the calls are made. */
  function TagOutput(source: string, style: Style, env: Env): (r: Result<Piece, Fault>)
    ensures r.Failure? <==>
      || !env.formatterOk
      || env.writeCSS(style).Failure?
      || env.tokenise(TagLexer(source, env), source).Failure?
      || env.format(style, env.tokenise(TagLexer(source, env), source).value).Failure?
    ensures !env.formatterOk ==> r == Failure(NoFormatter)
    ensures env.formatterOk && env.writeCSS(style).Failure? ==>
      r == Failure(CssFailed(env.writeCSS(style).error))
    ensures
      && env.formatterOk && env.writeCSS(style).Success?
      && env.tokenise(TagLexer(source, env), source).Failure?
      ==> r == Failure(NilIterator)
    ensures
      && env.formatterOk && env.writeCSS(style).Success?
      && env.tokenise(TagLexer(source, env), source).Success?
      && env.format(style, env.tokenise(TagLexer(source, env), source).value).Failure?
      ==> r == Failure(FormatFailed(env.format(style, env.tokenise(TagLexer(source, env), source).value).error))
    ensures r.Success? ==> r.value.css == env.writeCSS(style).value
    ensures r.Success? ==>
      r.value.markup == env.format(style, env.tokenise(TagLexer(source, env), source).value).value
  {
    if !env.formatterOk then Failure(NoFormatter)
    else
      match env.writeCSS(style)
      case Failure(e) => Failure(CssFailed(e))
      case Success(css) =>
        match env.tokenise(TagLexer(source, env), source)
        case Failure(_) => Failure(NilIterator)
        case Success(tokens) =>
          match env.format(style, tokens)
          case Failure(e) => Failure(FormatFailed(e))
          case Success(hi) => Success(Piece(css, hi))
  }

  /** mutableBytes, buf and cssbuf after a pass of the loop. */
  datatype Pass = Pass(doc: string, buf: string, css: string)

  /** The state after the first k tags: buf and cssbuf only grow, and the
      first occurrence of each tag's text is replaced by all of buf. */
  function Scan(contents: string, tags: seq<string>, style: Style, env: Env, k: nat): Result<Pass, Fault>
    requires k <= |tags|
  {
    if k == 0 then Success(Pass(contents, [], []))
    else
      match Scan(contents, tags, style, env, k - 1)
      case Failure(f) => Failure(f)
      case Success(p) =>
        match TagOutput(tags[k - 1], style, env)
        case Failure(f) => Failure(f)
        case Success(piece) =>
          var buf := p.buf + piece.markup;
          Success(Pass(ReplaceFirst(p.doc, tags[k - 1], buf), buf, p.css + piece.css))
  }

  /** What a run of Splash over these tags ends with. */
  function Highlighted(contents: string, tags: seq<string>, styleName: string, env: Env): Run {
    match Scan(contents, tags, ResolveStyle(styleName, env), env, |tags|)
    case Failure(f) => Crash(f)
    case Success(p) =>
      var r := AddCSSToHTML(p.doc, p.css);
      if r.err.Some? then Crash(NoHead(r.err.value)) else Done(r.data)
  }

  /** Once the loop has crashed it stays crashed. */
  lemma {:induction false} CrashIsFinal(contents: string, tags: seq<string>, style: Style, env: Env, k: nat, m: nat)
    requires k <= m <= |tags| && Scan(contents, tags, style, env, k).Failure?
    ensures Scan(contents, tags, style, env, m) == Scan(contents, tags, style, env, k)
    decreases m
  {
    if m > k {
      CrashIsFinal(contents, tags, style, env, k, m - 1);
    }
  }

  /** The body of the loop for one tag: choose the lexer, check the
      formatter, write the CSS, tokenise and format. */
  method HighlightTag(sourceCode: string, style: Style, env: Env) returns (r: Result<Piece, Fault>)
    ensures r == TagOutput(sourceCode, style, env)
  {
    var lexer := TagLexer(sourceCode, env);
    if !env.formatterOk {
      return Failure(NoFormatter);
    }
    var written := env.writeCSS(style);
    if written.Failure? {
      return Failure(CssFailed(written.error));
    }
    var tokens := env.tokenise(lexer, sourceCode);
    if tokens.Failure? {
      return Failure(NilIterator);
    }
    var formatted := env.format(style, tokens.value);
    if formatted.Failure? {
      return Failure(FormatFailed(formatted.error));
    }
    return Success(Piece(written.value, formatted.value));
  }

  /** One pass of the loop. */
  lemma ScanStep(contents: string, tags: seq<string>, style: Style, env: Env, k: nat, p: Pass)
    requires k < |tags| && Scan(contents, tags, style, env, k) == Success(p)
    ensures TagOutput(tags[k], style, env).Failure? ==>
      Scan(contents, tags, style, env, k + 1) == Failure(TagOutput(tags[k], style, env).error)
    ensures TagOutput(tags[k], style, env).Success? ==>
      var piece := TagOutput(tags[k], style, env).value;
      Scan(contents, tags, style, env, k + 1)
        == Success(Pass(ReplaceFirst(p.doc, tags[k], p.buf + piece.markup), p.buf + piece.markup, p.css + piece.css))
  {
  }

  /** The loop of Splash in main.go: for each tag, append its CSS to
      cssbuf and its markup to buf (never reset), and replace the first
      occurrence of the tag's text by all of buf. */
  method ReplaceTags(contents: string, tags: seq<string>, style: Style, env: Env) returns (r: Result<Pass, Fault>)
    ensures r == Scan(contents, tags, style, env, |tags|)
  {
    var mutableBytes := contents;
    var buf: string := [];
    var cssbuf: string := [];
    for i := 0 to |tags|
      invariant Scan(contents, tags, style, env, i) == Success(Pass(mutableBytes, buf, cssbuf))
    {
      var sourceCode := tags[i];
      var piece := HighlightTag(sourceCode, style, env);
      ScanStep(contents, tags, style, env, i, Pass(mutableBytes, buf, cssbuf));
      if piece.Failure? {
        CrashIsFinal(contents, tags, style, env, i + 1, |tags|);
        return Failure(piece.error);
      }
      cssbuf := cssbuf + piece.value.css;
      buf := buf + piece.value.markup;
      mutableBytes := ReplaceFirst(mutableBytes, sourceCode, buf);
    }
    return Success(Pass(mutableBytes, buf, cssbuf));
  }

  /** Splash of main.go: run the loop, then add the CSS to the head. */
  method Splash(contents: string, tags: seq<string>, styleName: string, env: Env) returns (r: Run)
    ensures r == Highlighted(contents, tags, styleName, env)
  {
    var style := ResolveStyle(styleName, env);
    var pass := ReplaceTags(contents, tags, style, env);
    if pass.Failure? {
      return Crash(pass.error);
    }
    var reply := AddCSSToHTML(pass.value.doc, pass.value.css);
    if reply.err.Some? {
      return Crash(NoHead(reply.err.value));
    }
    return Done(reply.data);
  }

  // ---------------------------------------------------------------------
  // What the loop promises

  /** A tag's markup, no bytes for a tag that fails. */
  function Markup(source: string, style: Style, env: Env): string {
    match TagOutput(source, style, env)
    case Success(p) => p.markup
    case Failure(_) => []
  }

  /** Each tag's markup, in order. */
  function Markups(tags: seq<string>, style: Style, env: Env): (r: seq<string>)
    ensures |r| == |tags|
  {
    seq(|tags|, j requires 0 <= j < |tags| => Markup(tags[j], style, env))
  }

  lemma MarkupsAppend(tags: seq<string>, style: Style, env: Env, k: nat)
    requires 0 < k <= |tags|
    ensures Markups(tags[..k], style, env) == Markups(tags[..k - 1], style, env) + [Markup(tags[k - 1], style, env)]
  {
  }

  /** The loop gets past the first k tags exactly when none of them
      fails. */
  lemma {:induction false} ScanSucceedsIff(contents: string, tags: seq<string>, style: Style, env: Env, k: nat)
    requires k <= |tags|
    ensures Scan(contents, tags, style, env, k).Success?
      <==> forall j :: 0 <= j < k ==> TagOutput(tags[j], style, env).Success?
  {
    if k > 0 {
      ScanSucceedsIff(contents, tags, style, env, k - 1);
      var ok := Scan(contents, tags, style, env, k).Success?;
      assert ok <==> Scan(contents, tags, style, env, k - 1).Success? && TagOutput(tags[k - 1], style, env).Success?;
    }
  }

  /** After the first k tags buf holds every markup so far, joined in
      order. */
  lemma {:induction false} ScanBuffer(contents: string, tags: seq<string>, style: Style, env: Env, k: nat)
    requires k <= |tags| && Scan(contents, tags, style, env, k).Success?
    ensures Scan(contents, tags, style, env, k).value.buf == TextJoiner(Markups(tags[..k], style, env))
  {
    if k > 0 {
      var p := Scan(contents, tags, style, env, k - 1);
      assert p.Success?;
      ScanStep(contents, tags, style, env, k - 1, p.value);
      ScanBuffer(contents, tags, style, env, k - 1);
      MarkupsAppend(tags, style, env, k);
      TextJoinerAppend(Markups(tags[..k - 1], style, env), Markup(tags[k - 1], style, env));
    }
  }

  /** After the first k tags cssbuf holds the style's stylesheet once per
      tag. */
  lemma {:induction false} ScanCss(contents: string, tags: seq<string>, style: Style, env: Env, k: nat)
    requires 0 < k <= |tags| && Scan(contents, tags, style, env, k).Success?
    ensures Scan(contents, tags, style, env, k).value.css == Repeat(env.writeCSS(style).value, k)
  {
    assert Scan(contents, tags, style, env, k - 1).Success?;
    if k > 1 {
      ScanCss(contents, tags, style, env, k - 1);
    }
  }

  /** The replacement for the k-th tag is not its own markup but every
      markup produced so far, joined in order, because buf is never reset;
      only its first occurrence in the current document changes. */
  lemma ReplacementIsWholeBuffer(contents: string, tags: seq<string>, style: Style, env: Env, k: nat)
    requires k < |tags| && Scan(contents, tags, style, env, k + 1).Success?
    ensures Scan(contents, tags, style, env, k).Success?
    ensures Scan(contents, tags, style, env, k + 1).value.doc
      == ReplaceFirst(Scan(contents, tags, style, env, k).value.doc, tags[k],
                      TextJoiner(Markups(tags[..k + 1], style, env)))
  {
    ScanBuffer(contents, tags, style, env, k + 1);
    assert Scan(contents, tags, style, env, k).Success?;
  }

  /** A run crashes exactly when some tag fails or the document, after the
      replacements, has no </head>. */
  lemma CrashIff(contents: string, tags: seq<string>, styleName: string, env: Env)
    ensures var style := ResolveStyle(styleName, env);
      Highlighted(contents, tags, styleName, env).Crash? <==>
        || (exists j :: 0 <= j < |tags| && TagOutput(tags[j], style, env).Failure?)
        || (Scan(contents, tags, style, env, |tags|).Success?
            && !Contains(Scan(contents, tags, style, env, |tags|).value.doc, HeadClose))
  {
    ScanSucceedsIff(contents, tags, ResolveStyle(styleName, env), env, |tags|);
  }

  /** With no tags the document only gains an empty style block. */
  lemma NoTags(contents: string, styleName: string, env: Env)
    requires Contains(contents, HeadClose)
    ensures Highlighted(contents, [], styleName, env)
      == Done(ReplaceFirst(contents, HeadClose, "<style></style></head>"))
  {
  }
}
