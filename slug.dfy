/** URL slugs: the replacement pipeline that turns a title into a slug, and the search for a
    slug not yet taken by appending "-2", "-3", ... */
module Slugs {
  import opened Wrappers
  import opened Text

  /** What a slug is made of: ASCII lower-case letters, digits, '_' and '-'. */
  predicate IsSlugChar(c: char) {
    IsAsciiLower(c) || IsAsciiDigit(c) || c == '_' || c == '-'
  }

  /** No two dashes in a row. */
  predicate NoDoubleDash(s: string) {
    forall i :: 0 <= i < |s| - 1 ==> !(s[i] == '-' && s[i + 1] == '-')
  }

  /** Word characters and dashes only: what survives `[^\w-]`. */
  predicate AllWordOrDash(s: string) {
    forall i :: 0 <= i < |s| ==> IsWordChar(s[i]) || s[i] == '-'
  }

  /** No dash at either end. */
  predicate NoEdgeDash(s: string) {
    |s| > 0 ==> s[0] != '-' && s[|s| - 1] != '-'
  }

  /** A well-formed slug: slug characters only, no "--", no dash at either end. */
  predicate IsSlug(s: string) {
    (forall i :: 0 <= i < |s| ==> IsSlugChar(s[i])) && NoDoubleDash(s) && NoEdgeDash(s)
  }

  // ---------------------------------------------------------------- the pipeline, stage by stage

  /** `[\s]` replaced by "-". */
  function DashWhitespace(s: string): (r: string)
  {
    seq(|s|, i requires 0 <= i < |s| => if IsJavaSpace(s[i]) then '-' else s[i])
  }

  /** `[^\w-]` replaced by "": only word characters and dashes stay, in order. */
  function KeepWordAndDash(s: string): (r: string)
  {
    if |s| == 0 then ""
    else
      var rest := KeepWordAndDash(s[1..]);
      if IsWordChar(s[0]) || s[0] == '-' then [s[0]] + rest else rest
  }

  /** `-+` replaced by "-": every run of dashes becomes one dash. */
  function CollapseDashes(s: string): (r: string)
  {
    if |s| <= 1 then s
    else
      var rest := CollapseDashes(s[1..]);
      if s[0] == '-' && s[1] == '-' then rest else [s[0]] + rest
  }

  /** `(^-|-$)` replaced by "": one leading and one trailing dash go; a lone "-" becomes "". */
  function TrimEdgeDashes(s: string): (r: string)
  {
    var a := if |s| > 0 && s[0] == '-' then 1 else 0;
    var b := if |s| > a && s[|s| - 1] == '-' then |s| - 1 else |s|;
    s[a..b]
  }

  /** `generateSlug`. A null or blank input gives "". `nfd` is the Unicode NFD normalisation
      the source applies first. */
  function GenerateSlug(input: Option<string>, nfd: string -> string): (r: string)
    ensures input.None? || JavaTrim(input.value) == "" ==> r == ""
  {
    if input.None? || JavaTrim(input.value) == "" then ""
    else Lower(TrimEdgeDashes(CollapseDashes(KeepWordAndDash(DashWhitespace(nfd(input.value))))))
  }

  // ---------------------------------------------------------------- properties of the stages

  /** Whitespace becomes dashes, one for one; a string without whitespace is left alone. */
  lemma DashWhitespaceFacts(s: string)
    ensures |DashWhitespace(s)| == |s|
    ensures forall i :: 0 <= i < |s| ==> DashWhitespace(s)[i] == (if IsJavaSpace(s[i]) then '-' else s[i])
    ensures (forall i :: 0 <= i < |s| ==> !IsJavaSpace(s[i])) ==> DashWhitespace(s) == s
  {
  }

  /** The filter keeps only word characters and dashes, never lengthens its input, and
      leaves a string of word characters and dashes alone. */
  lemma {:induction false} KeepWordAndDashFacts(s: string)
    ensures AllWordOrDash(KeepWordAndDash(s)) && |KeepWordAndDash(s)| <= |s|
    ensures AllWordOrDash(s) ==> KeepWordAndDash(s) == s
  {
    if |s| > 0 {
      KeepWordAndDashFacts(s[1..]);
      var rest := KeepWordAndDash(s[1..]);
      if IsWordChar(s[0]) || s[0] == '-' {
        var r := [s[0]] + rest;
        assert forall i :: 1 <= i < |r| ==> r[i] == rest[i - 1];
        assert AllWordOrDash(s) ==> r == [s[0]] + s[1..] == s;
      }
    }
  }

  /** Collapsing keeps the first character and the last. */
  lemma {:induction false} CollapseKeepsEnds(s: string)
    requires |s| > 0
    ensures var r := CollapseDashes(s); |r| > 0 && r[0] == s[0] && r[|r| - 1] == s[|s| - 1]
  {
    if |s| > 1 {
      CollapseKeepsEnds(s[1..]);
    }
  }

  /** Collapsing leaves no "--". */
  lemma {:induction false} CollapseNoDoubleDash(s: string)
    ensures NoDoubleDash(CollapseDashes(s))
  {
    if |s| > 1 {
      CollapseNoDoubleDash(s[1..]);
      CollapseKeepsEnds(s[1..]);
      var rest := CollapseDashes(s[1..]);
      if !(s[0] == '-' && s[1] == '-') {
        var r := [s[0]] + rest;
        assert forall i :: 1 <= i < |r| ==> r[i] == rest[i - 1];
      }
    }
  }

  /** Collapsing a string of word characters and dashes leaves one. */
  lemma {:induction false} CollapseKeepsWordAndDash(s: string)
    requires AllWordOrDash(s)
    ensures AllWordOrDash(CollapseDashes(s))
  {
    if |s| > 1 {
      assert AllWordOrDash(s[1..]) by {
        assert forall i :: 0 <= i < |s| - 1 ==> s[1..][i] == s[i + 1];
      }
      CollapseKeepsWordAndDash(s[1..]);
      var rest := CollapseDashes(s[1..]);
      if !(s[0] == '-' && s[1] == '-') {
        var r := [s[0]] + rest;
        assert forall i :: 1 <= i < |r| ==> r[i] == rest[i - 1];
      }
    }
  }

  /** A string without "--" is left as it is. */
  lemma {:induction false} CollapseLeavesSingleDashes(s: string)
    requires NoDoubleDash(s)
    ensures CollapseDashes(s) == s
  {
    if |s| > 1 {
      assert NoDoubleDash(s[1..]) by {
        assert forall i :: 0 <= i < |s| - 1 ==> s[1..][i] == s[i + 1];
      }
      CollapseLeavesSingleDashes(s[1..]);
      assert [s[0]] + s[1..] == s;
    }
  }

  /** Trimming the edge dashes of a string without "--" leaves a string without "--" and
      without a dash at either end, made of the input's characters. */
  lemma TrimEdgeDashesClean(s: string)
    requires NoDoubleDash(s)
    ensures NoDoubleDash(TrimEdgeDashes(s)) && NoEdgeDash(TrimEdgeDashes(s))
    ensures AllWordOrDash(s) ==> AllWordOrDash(TrimEdgeDashes(s))
  {
    var a := if |s| > 0 && s[0] == '-' then 1 else 0;
    var b := if |s| > a && s[|s| - 1] == '-' then |s| - 1 else |s|;
    var r := s[a..b];
    assert forall i :: 0 <= i < |r| ==> r[i] == s[a + i];
    if |r| > 0 {
      if a == 1 {
        assert s[0] == '-' && r[0] == s[1];
      }
      if b == |s| - 1 {
        assert s[|s| - 1] == '-' && r[|r| - 1] == s[|s| - 2];
      }
    }
  }

  /** A string already without edge dashes is left as it is by the trim. */
  lemma TrimLeavesClean(s: string)
    requires NoEdgeDash(s)
    ensures TrimEdgeDashes(s) == s
  {
  }

  /** Lower-casing a string of word characters and dashes, without "--" and without a dash
      at either end, gives a well-formed slug. */
  lemma LowerIsSlug(t: string)
    requires AllWordOrDash(t) && NoDoubleDash(t) && NoEdgeDash(t)
    ensures IsSlug(Lower(t))
  {
    var r := Lower(t);
    assert forall i :: 0 <= i < |r| ==> r[i] == LowerChar(t[i]);
  }

  /** The last three stages turn any string of word characters and dashes into a slug. */
  lemma CollapseTrimLowerIsSlug(w: string)
    requires AllWordOrDash(w)
    ensures IsSlug(Lower(TrimEdgeDashes(CollapseDashes(w))))
  {
    var c := CollapseDashes(w);
    CollapseNoDoubleDash(w);
    CollapseKeepsWordAndDash(w);
    TrimEdgeDashesClean(c);
    LowerIsSlug(TrimEdgeDashes(c));
  }

  // ---------------------------------------------------------------- properties of generateSlug

  /** Every slug `generateSlug` returns is well formed. */
  lemma GenerateSlugIsSlug(input: Option<string>, nfd: string -> string)
    ensures IsSlug(GenerateSlug(input, nfd))
  {
    if !(input.None? || JavaTrim(input.value) == "") {
      var d := DashWhitespace(nfd(input.value));
      KeepWordAndDashFacts(d);
      CollapseTrimLowerIsSlug(KeepWordAndDash(d));
    }
  }

  /** A well-formed slug has no blank trim: its characters are all above U+0020. */
  lemma SlugTrimsToItself(s: string)
    requires IsSlug(s) && |s| > 0
    ensures JavaTrim(s) == s
  {
    assert forall i :: 0 <= i < |s| ==> !IsJavaTrimmable(s[i]);
  }

  /** Each stage of the pipeline leaves a well-formed slug as it is. */
  lemma SlugIsFixedPoint(s: string)
    requires IsSlug(s)
    ensures Lower(TrimEdgeDashes(CollapseDashes(KeepWordAndDash(DashWhitespace(s))))) == s
  {
    assert forall i :: 0 <= i < |s| ==> !IsJavaSpace(s[i]) && (IsWordChar(s[i]) || s[i] == '-');
    DashWhitespaceFacts(s);
    KeepWordAndDashFacts(s);
    CollapseLeavesSingleDashes(s);
    TrimLeavesClean(s);
    LowerOfSlug(s);
  }

  lemma LowerOfSlug(s: string)
    requires forall i :: 0 <= i < |s| ==> IsSlugChar(s[i])
    ensures Lower(s) == s
  {
    forall i | 0 <= i < |s|
      ensures Lower(s)[i] == s[i]
    {
      assert !IsAsciiUpper(s[i]);
    }
  }

  /** `generateSlug` leaves its own output alone, given that normalising an ASCII slug
      changes nothing. */
  lemma GenerateSlugIdempotent(input: Option<string>, nfd: string -> string)
    requires var s := GenerateSlug(input, nfd); nfd(s) == s
    ensures var s := GenerateSlug(input, nfd); GenerateSlug(Some(s), nfd) == s
  {
    var s := GenerateSlug(input, nfd);
    GenerateSlugIsSlug(input, nfd);
    if |s| > 0 {
      SlugTrimsToItself(s);
      SlugIsFixedPoint(s);
    }
  }

  // ---------------------------------------------------------------- unique slugs

  /** The n-th alternative to a taken slug: base + "-" + n. */
  function Candidate(base: string, n: nat): string {
    base + "-" + NatToString(n)
  }

  /** Different counters give different candidates. */
  lemma CandidateInjective(base: string, a: nat, b: nat)
    requires Candidate(base, a) == Candidate(base, b)
    ensures a == b
  {
    var k := |base| + 1;
    assert Candidate(base, a)[k..] == NatToString(a);
    assert Candidate(base, b)[k..] == NatToString(b);
    NatToStringInjective(a, b);
  }

  /** A candidate is longer than its base, so never the base itself. */
  lemma CandidateNotBase(base: string, n: nat)
    ensures Candidate(base, n) != base
  {
    assert |Candidate(base, n)| > |base|;
  }

  /** `r` is the slug both searches are after: `base` when it is free, otherwise base-n for
      the least n >= 2 that is free. */
  ghost predicate IsLeastFreeSlug(base: string, taken: set<string>, r: string) {
    && r !in taken
    && (base !in taken ==> r == base)
    && (base in taken ==>
          exists n: nat :: n >= 2 && r == Candidate(base, n)
                           && forall m: nat :: 2 <= m < n ==> Candidate(base, m) in taken)
  }

  /** `generateUniqueSlug`, with the existence check given as the set of slugs in use: the
      base when it is free, otherwise a do-while over base-2, base-3, ... */
  method GenerateUniqueSlug(baseSlug: string, taken: set<string>) returns (slug: string)
    ensures IsLeastFreeSlug(baseSlug, taken, slug)
  {
    if baseSlug !in taken {
      return baseSlug;
    }
    var counter: nat := 2;
    ghost var seen: set<string> := {};
    slug := Candidate(baseSlug, counter);
    counter := counter + 1;
    while slug in taken
      invariant counter >= 3 && slug == Candidate(baseSlug, counter - 1)
      invariant forall m: nat :: 2 <= m < counter - 1 ==> Candidate(baseSlug, m) in taken
      invariant seen <= taken
      invariant forall s :: s in seen ==> exists m: nat :: 2 <= m < counter - 1 && s == Candidate(baseSlug, m)
      decreases taken - seen
    {
      if slug in seen {
        var m: nat :| 2 <= m < counter - 1 && slug == Candidate(baseSlug, m);
        CandidateInjective(baseSlug, m, counter - 1);
      }
      seen := seen + {slug};
      slug := Candidate(baseSlug, counter);
      counter := counter + 1;
    }
  }

  /** The least free slug is unique, so any two searches that find it agree. */
  lemma LeastFreeSlugUnique(base: string, taken: set<string>, r1: string, r2: string)
    requires IsLeastFreeSlug(base, taken, r1) && IsLeastFreeSlug(base, taken, r2)
    ensures r1 == r2
  {
    if base in taken {
      var n1: nat :| n1 >= 2 && r1 == Candidate(base, n1) && forall m: nat :: 2 <= m < n1 ==> Candidate(base, m) in taken;
      var n2: nat :| n2 >= 2 && r2 == Candidate(base, n2) && forall m: nat :: 2 <= m < n2 ==> Candidate(base, m) in taken;
    }
  }
}
