/** The region scan of splash.go: the regular expression
      (?m)(?s)(<pre>|<pre .*?chroma.*?>)(.*?)(</pre>)
    written out as a scanner, and the left-to-right, non-overlapping
    replacement that regexp.ReplaceAllFunc performs with its matches. */
module Regions {
  import opened Text

  const PreOpen := "<pre>"
  const PreOpenAttrs := "<pre "
  const PreClose := "</pre>"
  const Marker := "chroma"

  /** A region s[start..end] of the document. */
  datatype Span = Span(start: nat, end: nat)

  /** The end of the match that starts at `i`, if one does. Alternatives are
      tried in order and `.*?` is lazy with `.` matching newlines, so: after
      "<pre>" the match runs to the first "</pre>"; after "<pre " it takes the
      first "chroma", then the first '>' after it, then the first "</pre>"
      after that, which may lie past an earlier "</pre>". */
  function MatchAt(s: string, i: nat): (r: Option<nat>)
    requires i <= |s|
    ensures r.Some? ==> i + 11 <= r.value <= |s| && OccursAt(s, PreClose, r.value - 6)
    ensures r.Some? ==> OccursAt(s, PreOpen, i) || OccursAt(s, PreOpenAttrs, i)
  {
    if OccursAt(s, PreOpen, i) then
      match IndexFrom(s, PreClose, i + 5)
      case None => None
      case Some(e) => Some(e + 6)
    else if OccursAt(s, PreOpenAttrs, i) then
      match IndexFrom(s, Marker, i + 5)
      case None => None
      case Some(c) =>
        match IndexFrom(s, ">", c + 6)
        case None => None
        case Some(g) =>
          match IndexFrom(s, PreClose, g + 1)
          case None => None
          case Some(e) => Some(e + 6)
    else None
  }

  /** A match that starts with "<pre>" ends at the first "</pre>" after it. */
  lemma PlainMatchEnd(s: string, i: nat)
    requires i <= |s| && MatchAt(s, i).Some? && OccursAt(s, PreOpen, i)
    ensures forall j: nat :: i + 5 <= j < MatchAt(s, i).value - 6 ==> !OccursAt(s, PreClose, j)
  {
  }

  /** A "<pre>" followed somewhere by "</pre>" always starts a match, which
      ends no later than that "</pre>". */
  lemma PlainMatchComplete(s: string, i: nat, e: nat)
    requires OccursAt(s, PreOpen, i) && i + 5 <= e && OccursAt(s, PreClose, e)
    ensures MatchAt(s, i).Some? && MatchAt(s, i).value <= e + 6
  {
  }

  /** The positions a "<pre " match passes through: the "chroma" at c,
      the '>' at g after it and a "</pre>" after that, ending at `end`. */
  predicate AttrWitness(s: string, i: nat, c: nat, g: nat, end: nat) {
    && i + 5 <= c && c + 6 <= g && g + 7 <= end
    && OccursAt(s, Marker, c) && OccursAt(s, ">", g) && OccursAt(s, PreClose, end - 6)
  }

  /** A "<pre " followed by "chroma", a '>' and "</pre>", in that order,
      always starts a match, which ends no later than that "</pre>". */
  lemma AttrMatchComplete(s: string, i: nat, c: nat, g: nat, end: nat)
    requires OccursAt(s, PreOpenAttrs, i) && AttrWitness(s, i, c, g, end)
    ensures MatchAt(s, i).Some? && MatchAt(s, i).value <= end
  {
    assert !OccursAt(s, PreOpen, i) by {
      assert s[i + 4] == PreOpenAttrs[4] != PreOpen[4];
    }
    var c0 := IndexFrom(s, Marker, i + 5).value;
    var g0 := IndexFrom(s, ">", c0 + 6).value;
    var e0 := IndexFrom(s, PreClose, g0 + 1).value;
  }

  /** Conversely, a match that starts with "<pre " goes through the first
      "chroma" after the opener, the first '>' after that, and ends at the
      first "</pre>" after the '>'. */
  lemma AttrMatchSound(s: string, i: nat)
    requires i <= |s| && OccursAt(s, PreOpenAttrs, i) && MatchAt(s, i).Some?
    ensures exists c: nat, g: nat ::
      && AttrWitness(s, i, c, g, MatchAt(s, i).value)
      && (forall j: nat :: i + 5 <= j < c ==> !OccursAt(s, Marker, j))
      && (forall j: nat :: c + 6 <= j < g ==> !OccursAt(s, ">", j))
      && (forall j: nat :: g < j < MatchAt(s, i).value - 6 ==> !OccursAt(s, PreClose, j))
  {
    assert !OccursAt(s, PreOpen, i) by {
      assert s[i + 4] == PreOpenAttrs[4] != PreOpen[4];
    }
    var c := IndexFrom(s, Marker, i + 5).value;
    var g := IndexFrom(s, ">", c + 6).value;
    assert AttrWitness(s, i, c, g, MatchAt(s, i).value);
  }

  /** The leftmost match starting at or after `from`. */
  function NextMatch(s: string, from: nat): (r: Option<Span>)
    requires from <= |s|
    ensures r.Some? ==> from <= r.value.start <= |s| && MatchAt(s, r.value.start) == Some(r.value.end)
    ensures r.Some? ==> forall j: nat :: from <= j < r.value.start ==> MatchAt(s, j).None?
    ensures r.None? ==> forall j: nat :: from <= j <= |s| ==> MatchAt(s, j).None?
    decreases |s| - from
  {
    match MatchAt(s, from)
    case Some(e) => Some(Span(from, e))
    case None => if from == |s| then None else NextMatch(s, from + 1)
  }

  /** Spans lying left to right, without overlap, inside s[from..]. */
  predicate InOrder(s: string, spans: seq<Span>, from: nat) {
    && from <= |s|
    && (forall k :: 0 <= k < |spans| ==> from <= spans[k].start <= spans[k].end <= |s|)
    && (forall k, l :: 0 <= k < l < |spans| ==> spans[k].end <= spans[l].start)
  }

  /** Every match from `from` on, as ReplaceAllFunc finds them: the next
      search starts where the previous match ended. */
  function Matches(s: string, from: nat): (r: seq<Span>)
    requires from <= |s|
    ensures InOrder(s, r, from)
    ensures forall k :: 0 <= k < |r| ==> MatchAt(s, r[k].start) == Some(r[k].end)
    decreases |s| - from
  {
    match NextMatch(s, from)
    case None => []
    case Some(sp) =>
      var rest := Matches(s, sp.end);
      InOrderCons(s, sp, rest, from);
      [sp] + rest
  }

  /** No match is skipped: every position from `from` on where a match
      starts lies inside one of the spans found, so MatchAt fails before the
      first span, between two spans and after the last. A match starting
      inside a span is left alone, since the scan resumes at the span's end. */
  lemma {:induction false} MatchesCover(s: string, from: nat, j: nat)
    requires from <= j <= |s| && MatchAt(s, j).Some?
    ensures exists k :: 0 <= k < |Matches(s, from)| && Matches(s, from)[k].start <= j < Matches(s, from)[k].end
    decreases |s| - from
  {
    var sp := NextMatch(s, from).value;
    var r := Matches(s, from);
    assert r[0] == sp;
    if sp.end <= j {
      MatchesCover(s, sp.end, j);
      var rest := Matches(s, sp.end);
      var k :| 0 <= k < |rest| && rest[k].start <= j < rest[k].end;
      assert r[k + 1] == rest[k];
    }
  }

  /** A span followed by spans that lie after it. */
  lemma InOrderCons(s: string, sp: Span, rest: seq<Span>, from: nat)
    requires from <= sp.start <= sp.end && InOrder(s, rest, sp.end)
    ensures InOrder(s, [sp] + rest, from)
    ensures forall k :: 0 < k < |rest| + 1 ==> ([sp] + rest)[k] == rest[k - 1]
  {
  }

  /** The text of each span. */
  function Texts(s: string, spans: seq<Span>): (r: seq<string>)
    requires InOrder(s, spans, 0)
    ensures |r| == |spans|
    ensures forall k :: 0 <= k < |r| ==> r[k] == s[spans[k].start..spans[k].end]
  {
    seq(|spans|, k requires 0 <= k < |spans| => s[spans[k].start..spans[k].end])
  }

  /** s[from..] with the k-th span replaced by reps[k]; the bytes between and
      around the spans are copied. */
  function Splice(s: string, spans: seq<Span>, reps: seq<string>, from: nat): string
    requires InOrder(s, spans, from) && |reps| == |spans|
    decreases |spans|
  {
    if spans == [] then s[from..]
    else s[from..spans[0].start] + reps[0] + Splice(s, spans[1..], reps[1..], spans[0].end)
  }

  /** Putting each span's own text back gives the input: Splice changes the
      document inside the spans and nowhere else. */
  lemma {:induction false} SpliceOwnTexts(s: string, spans: seq<Span>, from: nat)
    requires InOrder(s, spans, from)
    ensures Splice(s, spans, seq(|spans|, k requires 0 <= k < |spans| => s[spans[k].start..spans[k].end]), from) == s[from..]
    decreases |spans|
  {
    var own := seq(|spans|, k requires 0 <= k < |spans| => s[spans[k].start..spans[k].end]);
    if spans != [] {
      var rest := spans[1..];
      assert InOrder(s, rest, spans[0].end);
      SpliceOwnTexts(s, rest, spans[0].end);
      assert own[1..] == seq(|rest|, k requires 0 <= k < |rest| => s[rest[k].start..rest[k].end]);
      assert s[from..] == s[from..spans[0].start] + s[spans[0].start..spans[0].end] + s[spans[0].end..];
    }
  }

  /** The spans after the k-th lie after it. */
  lemma InOrderSuffix(s: string, spans: seq<Span>, k: nat)
    requires InOrder(s, spans, 0) && 0 < k <= |spans|
    ensures InOrder(s, spans[k..], spans[k - 1].end)
  {
  }

  /** One step of the scan: the text up to the k-th span, its replacement,
      and the splice of the rest. */
  lemma SpliceStep(s: string, spans: seq<Span>, reps: seq<string>, k: nat, pos: nat)
    requires k < |spans| && |reps| == |spans| && InOrder(s, spans[k..], pos)
    ensures InOrder(s, spans[k + 1..], spans[k].end)
    ensures Splice(s, spans[k..], reps[k..], pos)
      == s[pos..spans[k].start] + reps[k] + Splice(s, spans[k + 1..], reps[k + 1..], spans[k].end)
  {
    assert spans[k..][1..] == spans[k + 1..] && reps[k..][1..] == reps[k + 1..];
  }

  /** Where the scan resumes after the first k spans. */
  function EndOf(spans: seq<Span>, k: nat): nat
    requires k <= |spans|
  {
    if k == 0 then 0 else spans[k - 1].end
  }

  /** The bytes a left-to-right scan has emitted once it is past the first k
      spans: the text before each span followed by its replacement. */
  function Emitted(s: string, spans: seq<Span>, reps: seq<string>, k: nat): string
    requires InOrder(s, spans, 0) && |reps| == |spans| && k <= |spans|
  {
    if k == 0 then []
    else Emitted(s, spans, reps, k - 1) + s[EndOf(spans, k - 1)..spans[k - 1].start] + reps[k - 1]
  }

  /** What the scan has emitted, followed by the splice of the spans it has
      not reached, is the whole splice. */
  lemma {:induction false} EmittedSplice(s: string, spans: seq<Span>, reps: seq<string>, k: nat)
    requires InOrder(s, spans, 0) && |reps| == |spans| && k <= |spans|
    ensures InOrder(s, spans[k..], EndOf(spans, k))
    ensures Emitted(s, spans, reps, k) + Splice(s, spans[k..], reps[k..], EndOf(spans, k))
      == Splice(s, spans, reps, 0)
  {
    if k > 0 {
      EmittedSplice(s, spans, reps, k - 1);
      SpliceStep(s, spans, reps, k - 1, EndOf(spans, k - 1));
      var done := Emitted(s, spans, reps, k - 1);
      var gap := s[EndOf(spans, k - 1)..spans[k - 1].start];
      var rest := Splice(s, spans[k..], reps[k..], EndOf(spans, k));
      Regroup(done, gap, reps[k - 1], rest);
    }
  }

  lemma Regroup(a: string, b: string, c: string, d: string)
    ensures a + (b + c + d) == (a + b + c) + d
  {
  }
}
