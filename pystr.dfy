/** Python's `str.strip()` with no argument, used by both MARC joins to
    compare a handle with an 856 URL. */
module PyStr {

  /** The characters for which Python's `str.isspace()` holds. */
  const PyWhitespace: set<char> := {
    '\U{9}', '\U{A}', '\U{B}', '\U{C}', '\U{D}',           // \t \n \v \f \r
    '\U{1C}', '\U{1D}', '\U{1E}', '\U{1F}', '\U{20}',      // file/group/record/unit separators, space
    '\U{85}', '\U{A0}', '\U{1680}',
    '\U{2000}', '\U{2001}', '\U{2002}', '\U{2003}', '\U{2004}', '\U{2005}',
    '\U{2006}', '\U{2007}', '\U{2008}', '\U{2009}', '\U{200A}',
    '\U{2028}', '\U{2029}', '\U{202F}', '\U{205F}', '\U{3000}'
  }

  predicate IsPyWhitespace(c: char) {
    c in PyWhitespace
  }

  /** Number of leading whitespace characters. */
  function Leading(s: string): (n: nat)
    ensures n <= |s|
  {
    if |s| > 0 && IsPyWhitespace(s[0]) then 1 + Leading(s[1..]) else 0
  }

  /** Number of trailing whitespace characters. */
  function Trailing(s: string): (n: nat)
    ensures n <= |s|
  {
    if |s| > 0 && IsPyWhitespace(s[|s| - 1]) then 1 + Trailing(s[..|s| - 1]) else 0
  }

  /** `Leading` counts the longest whitespace prefix. */
  lemma {:induction false} LeadingRun(s: string)
    ensures forall i :: 0 <= i < Leading(s) ==> IsPyWhitespace(s[i])
    ensures Leading(s) < |s| ==> !IsPyWhitespace(s[Leading(s)])
  {
    if |s| > 0 && IsPyWhitespace(s[0]) {
      LeadingRun(s[1..]);
      assert forall i :: 1 <= i < |s| ==> s[i] == s[1..][i - 1];
    }
  }

  /** `Trailing` counts the longest whitespace suffix. */
  lemma {:induction false} TrailingRun(s: string)
    ensures forall i :: |s| - Trailing(s) <= i < |s| ==> IsPyWhitespace(s[i])
    ensures Trailing(s) < |s| ==> !IsPyWhitespace(s[|s| - 1 - Trailing(s)])
  {
    if |s| > 0 && IsPyWhitespace(s[|s| - 1]) {
      TrailingRun(s[..|s| - 1]);
    }
  }

  /** `s.strip()`: the slice of `s` left after removing whitespace from both ends. */
  function Strip(s: string): string {
    s[Leading(s)..|s| - Trailing(s[Leading(s)..])]
  }

  /** What `strip` removes is whitespace, and what it keeps neither starts
      nor ends with whitespace. */
  lemma StripTrims(s: string)
    ensures exists a, b :: 0 <= a <= b <= |s| && Strip(s) == s[a..b]
                           && (forall i :: 0 <= i < a ==> IsPyWhitespace(s[i]))
                           && (forall i :: b <= i < |s| ==> IsPyWhitespace(s[i]))
    ensures Strip(s) == [] || (!IsPyWhitespace(Strip(s)[0]) && !IsPyWhitespace(Strip(s)[|Strip(s)| - 1]))
  {
    var a := Leading(s);
    var rest := s[a..];
    var b := |s| - Trailing(rest);
    LeadingRun(s);
    TrailingRun(rest);
    var r := s[a..b];
    assert Strip(s) == r;
    assert forall i :: b <= i < |s| ==> s[i] == rest[i - a];
    assert forall i :: b <= i < |s| ==> IsPyWhitespace(s[i]);
    assert 0 <= a <= b <= |s| && (forall i :: 0 <= i < a ==> IsPyWhitespace(s[i]));
    if r != [] {
      assert r[0] == s[a];
      assert r[|r| - 1] == rest[|rest| - 1 - Trailing(rest)];
    }
  }

  /** Stripping twice is stripping once. */
  lemma StripIdempotent(s: string)
    ensures Strip(Strip(s)) == Strip(s)
  {
    var r := Strip(s);
    StripTrims(s);
    assert Leading(r) == 0;
    assert r[0..] == r;
    assert Trailing(r) == 0;
  }

  /** Whitespace around a text that neither starts nor ends with
      whitespace is exactly what `strip` removes. */
  lemma StripPadded(pre: string, core: string, post: string)
    requires forall i :: 0 <= i < |pre| ==> IsPyWhitespace(pre[i])
    requires forall i :: 0 <= i < |post| ==> IsPyWhitespace(post[i])
    requires core == [] || (!IsPyWhitespace(core[0]) && !IsPyWhitespace(core[|core| - 1]))
    ensures Strip(pre + core + post) == core
  {
    var s := pre + core + post;
    LeadingRun(s);
    if core == [] {
      assert s == pre + post;
      assert forall i :: 0 <= i < |s| ==> IsPyWhitespace(s[i]);
      assert Leading(s) == |s|;
    } else {
      assert s[|pre|] == core[0];
      assert Leading(s) == |pre|;
      var rest := s[|pre|..];
      assert rest == core + post;
      assert rest[|core| - 1] == core[|core| - 1];
      TrailingRun(rest);
      assert Trailing(rest) == |post|;
      assert rest[..|core|] == core;
    }
  }
}
