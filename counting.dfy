/** Counting tag openers such as "<pre" and "<code" in byte strings, the
    measure behind the highlighter's tag-count invariant. */
module Counting {
  import opened Text

  /** The number of positions at which `p` occurs in `s`. For an opener
      (below) two occurrences can never overlap, so this is strings.Count. */
  function Count(s: string, p: string): nat
    requires |p| > 0
    decreases |s|
  {
    if |s| < |p| then 0 else (if OccursAt(s, p, 0) then 1 else 0) + Count(s[1..], p)
  }

  /** No occurrence of `p` in `a + b` starts in `a` and ends in `b`. */
  predicate NoStraddle(a: string, b: string, p: string) {
    forall i: nat :: i < |a| < i + |p| ==> !OccursAt(a + b, p, i)
  }

  lemma {:induction false} CountConcat(a: string, b: string, p: string)
    requires |p| > 0 && NoStraddle(a, b, p)
    ensures Count(a + b, p) == Count(a, p) + Count(b, p)
    decreases |a|
  {
    if |a| == 0 {
      assert a + b == b;
    } else {
      var a' := a[1..];
      assert (a + b)[1..] == a' + b;
      forall i: nat | i < |a'| < i + |p| ensures !OccursAt(a' + b, p, i) {
        assert !OccursAt(a + b, p, i + 1);
        if i + |p| <= |a' + b| {
          assert (a' + b)[i..i + |p|] == (a + b)[i + 1..i + 1 + |p|];
        }
      }
      CountConcat(a', b, p);
      if |a| < |p| {
        assert !OccursAt(a + b, p, 0);
        assert Count(a, p) == 0;
        assert Count(a', p) == 0;
      } else {
        assert (a + b)[0..|p|] == a[0..|p|];
      }
    }
  }

  /** A tag opener: '<' first, and no other '<', nor any of `>`, `"`, `-`,
      newline. "<pre" and "<code" are openers. */
  predicate Opener(p: string) {
    |p| >= 2 && p[0] == '<' && '<' !in p[1..] && '>' !in p && '"' !in p && '-' !in p && '\n' !in p
  }

  lemma OpenerTags()
    ensures Opener("<pre") && Opener("<code")
  {
  }

  lemma OccursAtByte(s: string, p: string, i: nat, k: nat)
    requires k < |p|
    ensures OccursAt(s, p, i) ==> s[i + k] == p[k]
  {
    if OccursAt(s, p, i) {
      assert s[i..i + |p|][k] == p[k];
    }
  }

  /** Pieces glued where the left one ends in `>`, `-`, `"` or a newline, or
      the right one starts with `<`, `>`, `"`, `-` or a newline, share no
      opener: the counts add up. */
  lemma Glue(a: string, b: string, p: string)
    requires Opener(p)
    requires a == [] || b == [] || a[|a| - 1] in ">-\"\n" || b[0] in "<>\"-\n"
    ensures Count(a + b, p) == Count(a, p) + Count(b, p)
  {
    forall i: nat | i < |a| < i + |p| ensures !OccursAt(a + b, p, i) {
      OccursAtByte(a + b, p, i, |a| - 1 - i);
      if |b| > 0 {
        OccursAtByte(a + b, p, i, |a| - i);
      }
    }
    CountConcat(a, b, p);
  }

  lemma Glue3(a: string, b: string, c: string, p: string)
    requires Opener(p) && b != []
    requires a == [] || a[|a| - 1] in ">-\"\n" || b[0] in "<>\"-\n"
    requires c == [] || b[|b| - 1] in ">-\"\n" || c[0] in "<>\"-\n"
    ensures Count(a + b + c, p) == Count(a, p) + Count(b, p) + Count(c, p)
  {
    Glue(b, c, p);
    assert (b + c)[0] == b[0];
    assert a + b + c == a + (b + c);
    Glue(a, b + c, p);
  }

  /** A string without '<' holds no opener. */
  lemma {:induction false} CountWithoutLt(t: string, p: string)
    requires Opener(p) && forall i :: 0 <= i < |t| ==> t[i] != '<'
    ensures Count(t, p) == 0
    decreases |t|
  {
    if |t| >= |p| {
      assert t[0] != p[0];
      assert forall i :: 0 <= i < |t[1..]| ==> t[1..][i] == t[i + 1];
      CountWithoutLt(t[1..], p);
    }
  }

  /** A string whose only '<' is its first byte holds one opener at most:
      one exactly when it starts with it. */
  lemma CountSingleLt(t: string, p: string)
    requires Opener(p) && |t| > 0 && forall i :: 1 <= i < |t| ==> t[i] != '<'
    ensures Count(t, p) == if OccursAt(t, p, 0) then 1 else 0
  {
    assert forall i :: 0 <= i < |t[1..]| ==> t[1..][i] == t[i + 1];
    CountWithoutLt(t[1..], p);
  }
}
