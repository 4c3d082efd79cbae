# splash, modelled in Dafny

splash adds syntax highlighting to the source code embedded in an HTML
page. It has two stages:

1. It finds every `<pre>…</pre>` region (and every `<pre …chroma…>…</pre>` region that was already highlighted).
2. It peels off the `<pre>`, `<code>` and `<code class="language-X">` wrappers, hands the text to the chroma highlighter, and puts the highlighted markup back with the wrappers it removed.

Finally the stylesheet chroma wrote for every region goes into the page's head.

This project models:

- the library (`splash.go`);
- the older implementation left in `main.go`;
- the style-list updater (`cmd/selfupdate/main.go`);
- two pieces of the gallery generator (`cmd/gendoc/main.go`): the pass that inlines the stylesheet as `style` attributes, and the page built for each style with its Prev and Next buttons.

Modules:

- `Text`: the byte-string operations of Go's `bytes`/`strings` packages the code uses. These are Index, Contains, Replace (first occurrence or all), Split, SplitN, Join, TrimSpace, TrimRightFunc(IsSpace), LastIndex and TrimSuffix. Most carry their meaning in their own contract. `ReplaceAll` and `JoinWith` have none: what they mean is stated by the lemmas `ReplaceAllIsSplitJoin` (Replace with -1 is Split then Join) and `SplitJoinRoundTrip` (Join undoes Split).
- `Counting`: how often a pattern occurs in a concatenation.
- `Chroma`: chroma as the code sees it. Styles, lexers, the formatter and `html.UnescapeString` are a record `Env` of total functions passed as a parameter. A failure of one of them is a `Failure` value. `Coalesce` is not a parameter: it is the fixed function that marks a lexer as coalesced (`Coalesce(l) == Coalesced(l)`), so the lexer handed to `Tokenise` is always the coalesced one.
- `Regions`: a scanner that finds exactly the leftmost, non-greedy matches of `(?s)(<pre>|<pre .*?chroma.*?>)(.*?)(</pre>)`. It also defines `Splice`, the result of `regexp.ReplaceAllFunc`.
- `Splash`: `AddCSSToHTML` and `Splash` of `splash.go`: the peeling of the wrappers, the choice of lexer, the callback, and the replace loop with its `cssBuf` and `outerErr`.
- `TagCount`: the property the package's tests check. Highlighting keeps the number of `<pre` and of `<code` in the page, and the model states the exact hypotheses under which that holds.
- `Legacy`: `main.go`, with its `AddCSSToHTML`, `TextJoiner` and the loop of `Splash` over the code and pre elements.
- `SelfUpdate`: `extractStyleNames` and `generateGoSourceCode`.
- `Gallery`: lines 38-74 and 135-150 of `cmd/gendoc/main.go`.

## Model

| member | source | states |
|---|---|---|
| Text.ReplaceFirst | splash.go:29-36 | `bytes.Replace(…, 1)`: without the pattern the text is unchanged; with it, the length changes by the difference of the two lengths |
| Text.SplitJoinRoundTrip | cmd/gendoc/main.go:135-137 | `bytes.Split` loses nothing: joining the pieces with the separator gives back the text |
| Text.ReplaceAllIsSplitJoin | cmd/gendoc/main.go:137 | `bytes.Replace(…, -1)` is split at the pattern and joined with the replacement |
| Text.SplitOnByteLength | cmd/gendoc/main.go:137-138 | splitting at a single byte gives one more piece than the byte occurs |
| Text.TrimSpace | cmd/gendoc/main.go:139-143 | the first and last bytes of the result are not whitespace |
| Text.TrimSpaceKeepsMiddle | cmd/gendoc/main.go:139-143 | the result occurs in the text with only whitespace before and after it |
| Text.TrimRight | splash.go:116 | `bytes.TrimRightFunc(…, unicode.IsSpace)` keeps a prefix and removes only trailing whitespace |
| Text.LastIndexOf | cmd/selfupdate/main.go:63-64 | `strings.LastIndex`: the byte is at the index and nowhere after it; None exactly when the byte is absent |
| Text.TrimSuffix | cmd/selfupdate/main.go:68 | with the suffix present, the result followed by the suffix is the text; otherwise the text is unchanged |
| Regions.MatchAt | splash.go:77 | a match at i starts with `<pre>` or `<pre `, ends with `</pre>` and is at least 11 bytes long |
| Regions.PlainMatchEnd | splash.go:77 | a match that starts with `<pre>` holds no `</pre>` between its tags |
| Regions.PlainMatchComplete | splash.go:77 | a `<pre>` with any `</pre>` after it starts a match, which ends no later than that `</pre>` |
| Regions.AttrMatchComplete | splash.go:77 | a `<pre ` followed by `chroma`, a `>` and a `</pre>`, in that order, starts a match, which ends no later than that `</pre>` |
| Regions.AttrMatchSound | splash.go:77 | a match that starts with `<pre ` goes through the first `chroma` after the opener and the first `>` after it, and ends at the first `</pre>` after that `>` |
| Regions.NextMatch | splash.go:77 | the leftmost match from a position: no match starts between the position and the one found, and None means no match at all |
| Regions.Matches | splash.go:77-78 | all matches, left to right and not overlapping, each one a match at its start |
| Regions.MatchesCover | splash.go:77-78 | no match is skipped: every position where a match starts lies inside one of the spans, so there is none before the first span, between two spans or after the last |
| Regions.SpliceOwnTexts | splash.go:78 | replacing every match by its own text gives the input back |
| Regions.EmittedSplice | splash.go:78 | what the replace loop has written after k regions, followed by the splice of the rest, is the whole result |
| Splash.AddCSSToHTML | splash.go:25-41 | fails with errHEAD and no bytes exactly when the page has neither `</head>` nor `<html>` |
| Splash.AddCSSAtFirstHead | splash.go:26-31 | with a `</head>` at its first position i, the page is the bytes before i, the style block with `</head>`, and the bytes after it |
| Splash.AddCSSAtFirstHtml | splash.go:32-37 | without `</head>`, the first `<html>` is replaced by `<html>` and a new head holding the style block |
| Splash.Unwrap | splash.go:81-98 | a pair of tags is stripped exactly when the prefix and the suffix are both present, and the text is open + result + close; the slice is always in bounds |
| Splash.LanguageSlices | splash.go:104-105 | both SplitN indexings of line 105 are in range, and with two quotes the language is the text from byte 22 to the next quote |
| Splash.Language | splash.go:104-105 | a language is read exactly when the text starts with `<code class="language-` and holds two quotes; it is followed by a quote at byte 22 and holds none |
| Splash.UnwrapLanguage | splash.go:107-111 | the long code tag and `</code>` are stripped exactly when both are there, and the slice of line 109 is in bounds |
| Splash.PeelLanguage | splash.go:100-112 | the language is the one read from the text, or empty without one; the long tag is stripped exactly when that language's tag and `</code>` enclose the text; putting the tags back gives the text |
| Splash.PeelInnerPre | splash.go:94-98 | the inner `<pre>` flag is set exactly when its tags are both there, and nothing is lost |
| Splash.PeelCode | splash.go:87-93 | the `<code>` flag is set exactly when its tags are both there, and nothing is lost |
| Splash.Peel | splash.go:80-112 | the outer flag is set exactly for `<pre>…</pre>`, and enclosing the result in the recorded tags gives the region back |
| Splash.StripTag | splash.go:80-98 | one check of preSource: the flag is set exactly when Unwrap applies, and preSource becomes the unwrapped text |
| Splash.StripLanguage | splash.go:100-112 | the language step, run on a variable, computes PeelLanguage |
| Splash.StripLayers | splash.go:80-112 | the callback's step-by-step reassignment of preSource and its four flags computes Peel |
| Splash.ChooseLexer | splash.go:123-136 | the declared language if chroma has it, else what analysis finds, else C |
| Splash.Reapply | splash.go:176-187 | `<pre class="chroma">` is put back exactly for a stripped outer `<pre>`; otherwise `<code>` for a stripped code tag; otherwise nothing. Unwrapping the tags put back returns the body (with `<code>` around it under the outer tag) |
| Splash.Callback | splash.go:78-192 | a region fails exactly when Tokenise, WriteCSS or Format fails, with the error of the first of them that fails; otherwise its stylesheet is WriteCSS's output and its markup is Format's output for the tokens, rewrapped in the region's own tags |
| Splash.LastFailure | splash.go:144-161 | the last region whose callback failed, with every later one succeeding; None exactly when all succeed |
| Splash.ReplaceRegions | splash.go:70-192 | the replace loop: the new page is every region replaced by its callback result (empty on failure), cssBuf is every successful stylesheet in order, and outerErr is the last error |
| Splash.Splash | splash.go:54-205 | the method computes Highlighted: a failed formatter, an error in any region, or a page without a head all give no bytes and the error |
| Splash.PlainRegionInside | splash.go:77-84 | a `<pre>` match is `<pre>`, a body without `</pre>`, and `</pre>` |
| Splash.PreTag2NeverStripped | splash.go:94-98 | no region the regular expression can match has an inner `<pre>…</pre>` stripped, so strippedPreTag2 is always false |
| Splash.ChromaWrapperRemoved | splash.go:170-178 | since strippedPreTag2 is false, chroma's `<pre class="chroma">` wrapper is always removed before the tags are put back |
| Splash.CssOncePerRegion | splash.go:151-155 | when every region succeeds with the same stylesheet, cssBuf holds it once per region |
| Splash.AssembleAbortsOnError | splash.go:195-197 | when some region fails, Splash returns no bytes and the last region's error |
| Splash.AssembleSucceeds | splash.go:195-205 | when all regions succeed, the head receives the regions' stylesheet once per region, added to the spliced page |
| Splash.OutcomesWriteStyleCss | splash.go:151-155 | every region that succeeds wrote the resolved style's stylesheet |
| TagCount.EncloseCount | splash.go:80-112 | the `<pre`/`<code` count of a region is the count of its stripped tags plus the count of its inner text |
| TagCount.ReapplyCount | splash.go:176-187 | the count of the rewrapped markup is that of the tags put back plus that of the body |
| TagCount.RegionKeepsCount | splash_test.go:84-91 | a region without both code layers keeps its `<pre` and `<code` counts once highlighted, when its text and the highlighter's body hold none |
| TagCount.DoubleCodeLosesOne | splash.go:89-112 | `<code><code class="language-X">…</code></code>` comes back with one `<code` fewer: only one `<code>` is put back |
| TagCount.SpliceKeepsCount | splash.go:78 | replacing regions by text with the same count keeps the page's count, when both start with `<` and end with `>` |
| TagCount.AddCSSKeepsCount | splash.go:25-41 | adding a stylesheet without the opener keeps the page's count |
| TagCount.CallbackKeepsCount | splash_test.go:122-131 | a plain `<pre>` region's callback result has as many `<pre` and `<code` as the region |
| TagCount.AssembleKeepsCount | splash.go:194-205 | a successful result has the page's count when every replaced region keeps its own |
| TagCount.HighlightKeepsCount | splash_test.go:122-131 | Splash keeps the number of `<pre` and `<code` in the page when every region is a plain `<pre>` region whose parts hold no tag opener and the stylesheet holds no `<` |
| Legacy.AddCSSToHTML | main.go:21-30 | fails with its message and no bytes exactly when there is no `</head>`; otherwise it grows by the stylesheet plus the 15 bytes of the tags |
| Legacy.AddCSSAtFirstHead | main.go:25-29 | the style block is spliced in before the first `</head>` only |
| Legacy.TextJoinerAppend | main.go:32-34 | joining with "" a list with one more string appends that string |
| Legacy.TextJoinerLength | main.go:32-34 | the joined length is the sum of the lengths |
| Legacy.TagLexer | main.go:59-63 | the analysed lexer, else chroma's fallback |
| Legacy.TagOutput | main.go:57-86 | one element fails exactly when there is no formatter or WriteCSS, Tokenise or Format fails, with the fault of the first failing step (`NoFormatter`, `CssFailed`, `NilIterator` for the nil iterator a failed Tokenise leaves, `FormatFailed`); otherwise its stylesheet is WriteCSS's output and its markup is Format's output for the tokens |
| Legacy.HighlightTag | main.go:57-86 | the loop body, run step by step, computes TagOutput |
| Legacy.CrashIsFinal | main.go:73-85 | log.Fatal ends the loop: after the first crash no later element changes the result |
| Legacy.ReplaceTags | main.go:56-89 | the loop computes the state Scan describes after every element |
| Legacy.Splash | main.go:38-97 | the method computes Highlighted |
| Legacy.ScanSucceedsIff | main.go:73-85 | the loop completes exactly when every element can be highlighted |
| Legacy.ScanBuffer | main.go:52-88 | buf is never reset: after k elements it holds the markup of all k, joined |
| Legacy.ScanCss | main.go:53-79 | cssbuf holds the style's stylesheet once per element |
| Legacy.ReplacementIsWholeBuffer | main.go:88 | the k-th element's text is replaced by the whole accumulated buffer, not by its own markup |
| Legacy.CrashIff | main.go:38-97 | Splash crashes exactly when some element cannot be highlighted (no formatter, a CSS or format error, a nil iterator) or the result has no `</head>` |
| Legacy.NoTags | main.go:55-96 | a page with a `</head>` and no code elements only gains an empty style block before it |
| SelfUpdate.IntermediateName | cmd/selfupdate/main.go:63-66 | the slice between the last '/' and the last '.' holds no '/'; None, where Go panics, exactly when every '.' has a '/' after it |
| SelfUpdate.MatchIsSliceable | cmd/selfupdate/main.go:56-66 | a match of `styles/.*\.xml` never makes the first slice panic |
| SelfUpdate.StyleName | cmd/selfupdate/main.go:62-68 | a name comes out exactly when the intermediate name holds a '.'; it is a proper prefix of it and holds no '/' |
| SelfUpdate.StyleNameOfParts | cmd/selfupdate/main.go:62-68 | a match `…/STEM.MID.xml` gives STEM |
| SelfUpdate.PlainLinkPanics | cmd/selfupdate/main.go:68 | the plain link `styles/NAME.xml` makes line 68 panic |
| SelfUpdate.IntendedStyleName | cmd/selfupdate/main.go:67-68 | the corrected cut: every intermediate name gives a name, the part before its last '.' if it has one (then it agrees with the as-written StyleName), else the whole intermediate name |
| SelfUpdate.IntendedNameOfLink | cmd/selfupdate/main.go:67-68 | corrected, `styles/NAME.xml` gives NAME |
| SelfUpdate.IntendedNameOfMatch | cmd/selfupdate/main.go:56-68 | corrected, every match gives a name |
| SelfUpdate.SliceStyleName | cmd/selfupdate/main.go:62-68 | the loop body computes StyleName |
| SelfUpdate.ExtractStyleNames | cmd/selfupdate/main.go:54-73 | names come out exactly when no match panics, one per match, in order, each its match's StyleName |
| SelfUpdate.GenerateGoSourceCode | cmd/selfupdate/main.go:75-85 | the header, one quoted line per style in order, and the closing brace |
| SelfUpdate.ReadLinesRoundTrip | cmd/selfupdate/main.go:78-82 | reading the lines back gives the styles, when no name holds a double quote |
| SelfUpdate.GoSourceRoundTrip | cmd/selfupdate/main.go:75-85 | the generated file declares exactly the given styles in order |
| SelfUpdate.EmptyGoSource | cmd/selfupdate/main.go:75-85 | no styles give an empty slice literal |
| Gallery.ParseRule | cmd/gendoc/main.go:137-143 | a rule's declarations have no whitespace at either end |
| Gallery.RemoveAllKeepsByte | cmd/gendoc/main.go:137 | removing every `.chroma` keeps the number of '{' |
| Gallery.ParseRuleIff | cmd/gendoc/main.go:137-138 | a chunk of the stylesheet is a rule exactly when it holds one '{' |
| Gallery.ApplyRuleSplitJoin | cmd/gendoc/main.go:144-148 | a rule replaces every occurrence of its target and keeps the text between them, which holds no target |
| Gallery.NoRulesNoChange | cmd/gendoc/main.go:135-150 | chunks that are not rules leave the markup unchanged |
| Gallery.InlineChunk | cmd/gendoc/main.go:137-148 | the loop body computes ApplyChunk |
| Gallery.InlineStyles | cmd/gendoc/main.go:135-150 | the loop applies, in order, every chunk of the stylesheet split at '}' |
| Gallery.ButtonTarget | cmd/gendoc/main.go:53-66 | a page a button opens is only found in a link button |
| Gallery.DisabledHasNoTarget | cmd/gendoc/main.go:53-66 | a disabled button opens nothing |
| Gallery.LinkButtonTarget | cmd/gendoc/main.go:53-63 | a link button opens the page of the style it names, when the name holds no `'` |
| Gallery.PrevButtonLinks | cmd/gendoc/main.go:53-58 | Prev is disabled exactly on the first page and otherwise opens the previous style |
| Gallery.NextButtonLinks | cmd/gendoc/main.go:60-66 | Next is disabled exactly on the last page and otherwise opens the next style |
| Gallery.WriteInputPage | cmd/gendoc/main.go:41-74 | the page for the i-th style: the head, the sample, the two buttons and the tail |

## Left out

- chroma itself: styles, lexers, `Tokenise`, `WriteCSS` and `Format` are parameters (`Env`). This includes whether the formatter's output starts with `<pre class="chroma">`.
- `Coalesce` is modelled only as a tag on the lexer (`Coalesced`), since merging adjacent tokens happens inside the `Tokenise` parameter.
- `html.UnescapeString` is a parameter.
- `unicode.IsSpace` is modelled on ASCII bytes only. Multi-byte whitespace is not decoded.
- Go's regular expression engine is not modelled. `Regions` scans for the one pattern of `splash.go`. `extractStyleNames` takes the result of `FindAllString` as its input.
- In `main.go`, parsing the page into a DOM and `scrape.FindAll`/`TextJoin` are not modelled. `Legacy.Splash` takes the text of every code and pre element as input.
- `main.go` assigns `mutableBytes`, which is declared nowhere, so the file does not compile. The model treats it as a local variable.
- `log.Fatal` in `main.go` is the `Crash` result. Panics in `cmd/selfupdate` are `None`.
- Fetching the style page and writing `styles.go` in `cmd/selfupdate` are not modelled. They are network and file I/O.
- The rest of `cmd/gendoc` is not modelled: the footer with the current time, the index and all-styles pages, the call to highlight each page, writing the files, and its `main`.
- The loop of `cmd/gendoc` over every style is not modelled. `Gallery.WriteInputPage` builds one page.
- The small command-line programs and examples are not modelled. They only call the library.
- Splash.ReplaceRegions: when Format fails after WriteCSS, that region's stylesheet remains in `cssBuf` in the source, but the model does not add it. The result is an error either way, so the returned bytes agree.
- Splash.StripLayers: the language is read by the `Language` function. SplitN's pieces are modelled in `Text.SplitN` rather than step by step.
- TagCount.HighlightKeepsCount: proved only for pages whose matched regions all start with a plain `<pre>`. A region that starts `<pre class="chroma">` comes back without its `<pre`, because chroma's wrapper is removed and nothing puts one back. The proof also assumes that region texts, declared languages and highlighted bodies hold no `<pre`/`<code` and that the stylesheet holds no `<`.
- TagCount.RegionKeepsCount: does not cover `<code><code class="language-X">`, which loses one `<code` (TagCount.DoubleCodeLosesOne).
- Gallery.ParseRule: says nothing about the class name beyond what the body computes. Its partner is Gallery.ParseRuleIff.

## Findings

| source | as written | input that shows it | evidently intended | confidence | as-written member | corrected member |
|---|---|---|---|---|---|---|
| cmd/selfupdate/main.go:68 | `styleName[strings.LastIndex(styleName, "."):]` slices from -1 when the name between the last '/' and the last '.' has no '.' of its own | the link `styles/abap.xml`: the name is `abap`, LastIndex returns -1, and the slice panics | the comment at line 67 ("remove everything after the last period"): keep `abap` | not executed | SelfUpdate.PlainLinkPanics | SelfUpdate.IntendedNameOfLink |
