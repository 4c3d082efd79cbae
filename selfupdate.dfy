/** The style-list updater of cmd/selfupdate: the style names taken from the
    links of chroma's style directory, and the Go source that lists them.
    Fetching the page, running the regular expression `styles/.*\.xml` over
    it and writing the file are not modelled: extraction takes the matches
    as input. A slice with bounds out of range panics; the model returns
    None for that. */
module SelfUpdate {
  import opened Text

  // ---------------------------------------------------------------------
  // extractStyleNames (lines 54-73)

  /** match[lastSlashIdx+1 : lastDotIdx], the text strictly between the last
      '/' (or the start) and the last '.'; None where Go panics: no '.', or
      the last '/' after the last '.'. */
  function IntermediateName(m: string): (r: Option<string>)
    ensures r.Some? ==> '/' !in r.value
    ensures r.None? <==> forall k :: 0 <= k < |m| && m[k] == '.' ==> '/' in m[k + 1..]
  {
    var lo := match LastIndexOf(m, '/') case None => 0 case Some(i) => i + 1;
    match LastIndexOf(m, '.')
    case None => None
    case Some(hi) => if lo <= hi then Some(m[lo..hi]) else None
  }

  /** Every split of a match into a part ending in '/', a name without '/',
      and a tail that starts with the last '.' and holds no '/', yields
      that name. */
  lemma IntermediateOfParts(before: string, name: string, after: string)
    requires before == [] || before[|before| - 1] == '/'
    requires '/' !in name && '/' !in after
    requires |after| > 0 && after[0] == '.' && '.' !in after[1..]
    ensures IntermediateName(before + name + after) == Some(name)
  {
    var m := before + name + after;
    var dot := |before| + |name|;
    assert m[dot + 1..] == after[1..];
    LastIndexOfAt(m, '.', dot);
    if before != [] {
      assert m[|before|..] == name + after;
      LastIndexOfAt(m, '/', |before| - 1);
    } else {
      assert m == name + after;
    }
    assert m[|before|..dot] == name;
  }

  /** A match of `styles/.*\.xml` always has its last '.' after its last
      '/', so the first slice never panics. */
  lemma MatchIsSliceable(m: string)
    requires "styles/" <= m && HasSuffix(m, ".xml")
    ensures IntermediateName(m).Some?
  {
    var dot := |m| - 4;
    assert m[dot] == '.' && m[dot + 1..] == "xml";
    LastIndexOfAt(m, '.', dot);
    assert m[6] == '/';
    assert forall k :: dot <= k < |m| ==> m[k] != '/' by {
      forall k | dot < k < |m| ensures m[k] != '/' { assert m[k] == m[dot + 1..][k - dot - 1]; }
    }
  }

  /** The style name of one match, as written: the intermediate name cut at
      its own last '.' by TrimSuffix; None where Go panics, which includes
      every intermediate name without a '.'. */
  function StyleName(m: string): (r: Option<string>)
    ensures r.Some? <==> IntermediateName(m).Some? && '.' in IntermediateName(m).value
    ensures r.Some? ==> '/' !in r.value && r.value < IntermediateName(m).value
  {
    match IntermediateName(m)
    case None => None
    case Some(n) =>
      match LastIndexOf(n, '.')
      case None => None
      case Some(d) =>
        var r := TrimSuffix(n, n[d..]);
        assert r == n[..d];
        Some(r)
  }

  /** A match whose intermediate name is stem.mid gives stem. */
  lemma StyleNameOfParts(before: string, stem: string, mid: string, after: string)
    requires before == [] || before[|before| - 1] == '/'
    requires '/' !in stem && '/' !in mid && '.' !in mid && '/' !in after
    requires |after| > 0 && after[0] == '.' && '.' !in after[1..]
    ensures StyleName(before + stem + "." + mid + after) == Some(stem)
  {
    var name := stem + "." + mid;
    assert before + name + after == before + stem + "." + mid + after;
    NoSlashIn(stem, mid);
    IntermediateOfParts(before, name, after);
    assert name[|stem| + 1..] == mid;
    LastIndexOfAt(name, '.', |stem|);
    StyleNameCut(before + name + after, name, |stem|);
    assert name[..|stem|] == stem;
  }

  /** The style name is the intermediate name up to its last '.'. */
  lemma StyleNameCut(m: string, name: string, d: nat)
    requires IntermediateName(m) == Some(name) && LastIndexOf(name, '.') == Some(d)
    ensures StyleName(m) == Some(name[..d])
  {
  }

  lemma NoSlashIn(stem: string, mid: string)
    requires '/' !in stem && '/' !in mid
    ensures '/' !in stem + "." + mid
  {
    var name := stem + "." + mid;
    forall k | 0 <= k < |name| ensures name[k] != '/' {
      if k < |stem| { assert name[k] == stem[k]; }
      else if k > |stem| { assert name[k] == mid[k - |stem| - 1]; }
    }
  }

  /** As written, the plain link `styles/NAME.xml` makes line 68 panic: the
      intermediate name NAME has no '.' to cut at. */
  lemma PlainLinkPanics(name: string)
    requires '/' !in name && '.' !in name
    ensures StyleName("styles/" + name + ".xml") == None
  {
    var before := "styles/";
    IntermediateOfParts(before, name, ".xml");
  }

  /** The style name the comment at line 67 describes: the intermediate
      name, with everything from its last '.' removed when it has one. */
  function IntendedStyleName(m: string): (r: Option<string>)
    ensures r.Some? <==> IntermediateName(m).Some?
    ensures r.Some? ==> '/' !in r.value && r.value <= IntermediateName(m).value
    ensures StyleName(m).Some? ==> r == StyleName(m)
    ensures IntermediateName(m).Some? && '.' !in IntermediateName(m).value ==> r == IntermediateName(m)
  {
    match IntermediateName(m)
    case None => None
    case Some(n) =>
      match LastIndexOf(n, '.')
      case None => Some(n)
      case Some(d) => Some(n[..d])
  }

  /** The plain link `styles/NAME.xml` gives NAME, and every match of the
      regular expression gives a name. */
  lemma IntendedNameOfLink(name: string)
    requires '/' !in name && '.' !in name
    ensures IntendedStyleName("styles/" + name + ".xml") == Some(name)
  {
    var before := "styles/";
    IntermediateOfParts(before, name, ".xml");
  }

  lemma IntendedNameOfMatch(m: string)
    requires "styles/" <= m && HasSuffix(m, ".xml")
    ensures IntendedStyleName(m).Some?
  {
    MatchIsSliceable(m);
  }

  /** The body of the loop for one match: the two LastIndex calls, the
      slice, and the TrimSuffix that cuts at the last '.'. */
  method SliceStyleName(m: string) returns (r: Option<string>)
    ensures r == StyleName(m)
  {
    var lastSlashIdx := LastIndexOf(m, '/');
    var lastDotIdx := LastIndexOf(m, '.');
    var lo := if lastSlashIdx.Some? then lastSlashIdx.value + 1 else 0;
    if lastDotIdx.None? || lo > lastDotIdx.value {
      assert IntermediateName(m).None?;
      return None;
    }
    var styleName := m[lo..lastDotIdx.value];
    assert IntermediateName(m) == Some(styleName);
    var cut := LastIndexOf(styleName, '.');
    if cut.None? {
      return None;
    }
    styleName := TrimSuffix(styleName, styleName[cut.value..]);
    return Some(styleName);
  }

  /** extractStyleNames over the matches, in order: the name slice is
      allocated up front and filled by index. */
  method ExtractStyleNames(matches: seq<string>) returns (r: Option<seq<string>>)
    ensures r.Some? <==> forall i :: 0 <= i < |matches| ==> StyleName(matches[i]).Some?
    ensures r.Some? ==>
      (|r.value| == |matches| && forall i :: 0 <= i < |matches| ==> StyleName(matches[i]) == Some(r.value[i]))
  {
    var styleNames := new string[|matches|];
    for i := 0 to |matches|
      invariant forall j :: 0 <= j < i ==> StyleName(matches[j]) == Some(styleNames[j])
    {
      var styleName := SliceStyleName(matches[i]);
      if styleName.None? {
        return None;
      }
      styleNames[i] := styleName.value;
    }
    return Some(styleNames[..]);
  }

  // ---------------------------------------------------------------------
  // generateGoSourceCode (lines 75-85)

  const Header := "package main\n\nvar styles = []string{\n"
  const Footer := "}\n"

  /** The line a style gets. */
  function Line(style: string): string {
    "\t\"" + style + "\",\n"
  }

  /** The lines of the styles, in order. */
  function Lines(styles: seq<string>): string {
    if |styles| == 0 then [] else Lines(styles[..|styles| - 1]) + Line(styles[|styles| - 1])
  }

  /** generateGoSourceCode: the header, one line per style, the footer. */
  method GenerateGoSourceCode(styles: seq<string>) returns (source: string)
    ensures source == Header + Lines(styles) + Footer
  {
    var buffer := Header;
    for i := 0 to |styles|
      invariant buffer == Header + Lines(styles[..i])
    {
      assert styles[..i + 1][..i] == styles[..i];
      buffer := buffer + "\t\"";
      buffer := buffer + styles[i];
      buffer := buffer + "\",\n";
    }
    assert styles[..|styles|] == styles;
    buffer := buffer + Footer;
    return buffer;
  }

  /** Lines of a list put together from the front. */
  lemma {:induction false} LinesCons(style: string, rest: seq<string>)
    ensures Lines([style] + rest) == Line(style) + Lines(rest)
    decreases |rest|
  {
    var all := [style] + rest;
    if |rest| > 0 {
      var init := rest[..|rest| - 1];
      assert all[..|all| - 1] == [style] + init;
      LinesCons(style, init);
    } else {
      assert all[..0] == [];
    }
  }

  /** Reading the lines back: each line is a tab, a quoted name and `,`. */
  function ReadLines(body: string): (r: Option<seq<string>>)
    decreases |body|
  {
    if body == [] then Some([])
    else if !("\t\"" <= body) then None
    else
      match IndexOf(body[2..], "\"")
      case None => None
      case Some(i) =>
        if !OccursAt(body, "\",\n", 2 + i) then None
        else
          match ReadLines(body[2 + i + 3..])
          case None => None
          case Some(rest) => Some([body[2..2 + i]] + rest)
  }

  /** The list a generated file declares. */
  function ReadGoSource(source: string): (r: Option<seq<string>>)
  {
    if Header <= source && |Header| + |Footer| <= |source| && HasSuffix(source, Footer)
    then ReadLines(source[|Header|..|source| - |Footer|])
    else None
  }

  /** No style holds a double quote. */
  predicate Unquoted(styles: seq<string>) {
    forall k :: 0 <= k < |styles| ==> '"' !in styles[k]
  }

  lemma ReadLine(style: string, rest: string)
    requires '"' !in style
    ensures var body := Line(style) + rest;
      && "\t\"" <= body
      && IndexOf(body[2..], "\"") == Some(|style|)
      && OccursAt(body, "\",\n", 2 + |style|)
      && body[2..2 + |style|] == style
      && body[2 + |style| + 3..] == rest
  {
    var body := Line(style) + rest;
    var t := body[2..];
    assert t == style + "\",\n" + rest;
    forall j: nat | j < |style| ensures !OccursAt(t, "\"", j) {
      assert t[j] == style[j];
    }
    assert OccursAt(t, "\"", |style|);
    FirstAtIsIndexOf(t, "\"", |style|);
  }

  lemma {:induction false} ReadLinesRoundTrip(styles: seq<string>)
    requires Unquoted(styles)
    ensures ReadLines(Lines(styles)) == Some(styles)
    decreases |styles|
  {
    if |styles| > 0 {
      var rest := styles[1..];
      assert styles == [styles[0]] + rest;
      LinesCons(styles[0], rest);
      assert Unquoted(rest) by {
        forall k | 0 <= k < |rest| ensures '"' !in rest[k] { assert rest[k] == styles[k + 1]; }
      }
      ReadLinesRoundTrip(rest);
      ReadLine(styles[0], Lines(rest));
    }
  }

  /** The generated file declares exactly the styles it was given, once
      each and in order, when no name holds a quote; it starts with the
      header and ends with the closing brace. */
  lemma GoSourceRoundTrip(styles: seq<string>)
    requires Unquoted(styles)
    ensures var source := Header + Lines(styles) + Footer;
      && Header <= source && HasSuffix(source, Footer)
      && ReadGoSource(source) == Some(styles)
  {
    var source := Header + Lines(styles) + Footer;
    assert source[|Header|..|source| - |Footer|] == Lines(styles);
    assert source[|source| - |Footer|..] == Footer;
    ReadLinesRoundTrip(styles);
  }

  /** An empty list gives the header and the closing brace only. */
  lemma EmptyGoSource()
    ensures Header + Lines([]) + Footer == "package main\n\nvar styles = []string{\n}\n"
  {
  }
}
