/** The middle-initial name pattern of eCommonsVIVO.py,
      ([A-Za-z]+, *[A-Za-z]+ {1})([A-Za-z]){1}\.*$
    applied with Python's `re.match` (anchored at the start).  `Parse`
    returns the two capture groups.  The lemmas `ParseComplete` and
    `ParseSound` say that it accepts exactly the strings
      group1 + [initial] + tail
    where group1 has the shape `Group1Shape`, the initial is an ASCII letter
    and the tail is what `\.*$` accepts.  Python's `$` without MULTILINE
    matches at the end of the string or just before a final newline, so the
    tail is dots, possibly followed by one final '\n'. */
module MiddleInitial {
  import opened Wrappers

  predicate IsAsciiLetter(c: char) { 'A' <= c <= 'Z' || 'a' <= c <= 'z' }

  /** The end of the run of ASCII letters that starts at `start`. */
  function LettersFrom(s: string, start: nat): (e: nat)
    requires start <= |s|
    ensures start <= e <= |s|
    ensures forall m :: start <= m < e ==> IsAsciiLetter(s[m])
    ensures e < |s| ==> !IsAsciiLetter(s[e])
    decreases |s| - start
  {
    if start < |s| && IsAsciiLetter(s[start]) then LettersFrom(s, start + 1) else start
  }

  /** The end of the run of spaces that starts at `start`. */
  function BlanksFrom(s: string, start: nat): (e: nat)
    requires start <= |s|
    ensures start <= e <= |s|
    ensures forall m :: start <= m < e ==> s[m] == ' '
    ensures e < |s| ==> s[e] != ' '
    decreases |s| - start
  {
    if start < |s| && s[start] == ' ' then BlanksFrom(s, start + 1) else start
  }

  /** What `\.*$` accepts from position `from` on: dots, except that the
      very last character may be a newline. */
  predicate DotsToEnd(s: string, from: nat) {
    forall m :: from <= m < |s| ==> s[m] == '.' || (m == |s| - 1 && s[m] == '\n')
  }

  /** `midinit_re.match(s)`: Some((group(1), group(2))) or None.  Each
      repetition is taken greedily; backtracking cannot help, because the
      character that ends each run (',', a letter, ' ') is not of the run's
      class. */
  function Parse(s: string): Option<(string, char)> {
    var i := LettersFrom(s, 0);
    if i == 0 || i == |s| || s[i] != ',' then None
    else
      var j := BlanksFrom(s, i + 1);
      var k := LettersFrom(s, j);
      if k == j || k + 1 >= |s| || s[k] != ' ' || !IsAsciiLetter(s[k + 1]) then None
      else if DotsToEnd(s, k + 2) then Some((s[..k + 1], s[k + 1]))
      else None
  }

  /** `g` is letters, a comma at `i`, spaces up to `j`, letters, one final space. */
  predicate Group1At(g: string, i: nat, j: nat) {
    && 0 < i < j < |g| - 1
    && (forall m :: 0 <= m < i ==> IsAsciiLetter(g[m]))
    && g[i] == ','
    && (forall m :: i < m < j ==> g[m] == ' ')
    && (forall m :: j <= m < |g| - 1 ==> IsAsciiLetter(g[m]))
    && g[|g| - 1] == ' '
  }

  /** The shape of the first capture group, `[A-Za-z]+, *[A-Za-z]+ {1}`. */
  ghost predicate Group1Shape(g: string) {
    exists i: nat, j: nat :: Group1At(g, i, j)
  }

  /** On a string that starts with a first group, the scan of `Parse`
      stops at the comma, at the first letter after the spaces, and at the
      group's final space. */
  lemma Group1Scan(g: string, i: nat, j: nat, s: string)
    requires Group1At(g, i, j) && |g| < |s| && s[..|g|] == g
    ensures LettersFrom(s, 0) == i && s[i] == ','
    ensures BlanksFrom(s, i + 1) == j
    ensures LettersFrom(s, j) == |g| - 1 && s[|g| - 1] == ' '
    ensures s[..LettersFrom(s, j) + 1] == g
  {
    assert forall m :: 0 <= m < |g| ==> s[m] == g[m];
    assert IsAsciiLetter(s[j]);
  }

  /** Every string of the pattern's shape is accepted, with its own groups. */
  lemma ParseComplete(g: string, c: char, tail: string)
    requires Group1Shape(g) && IsAsciiLetter(c)
    requires DotsToEnd(tail, 0)
    ensures Parse(g + [c] + tail) == Some((g, c))
  {
    var i: nat, j: nat :| Group1At(g, i, j);
    var s := g + [c] + tail;
    var n := |g|;
    assert s[..n] == g;
    Group1Scan(g, i, j, s);
    assert s[n] == c;
    assert forall m :: n < m < |s| ==> s[m] == tail[m - n - 1];
  }

  /** Every accepted string has the pattern's shape, and the groups are its parts. */
  lemma ParseSound(s: string)
    requires Parse(s).Some?
    ensures var (g, c) := Parse(s).value;
            && Group1Shape(g) && IsAsciiLetter(c)
            && |g| < |s| && s == g + [c] + s[|g| + 1..]
            && DotsToEnd(s[|g| + 1..], 0)
  {
    var i := LettersFrom(s, 0);
    var j := BlanksFrom(s, i + 1);
    var k := LettersFrom(s, j);
    var g := s[..k + 1];
    assert Group1At(g, i, j);
    assert s == g + [s[k + 1]] + s[k + 2..];
    var t := s[k + 2..];
    assert forall m :: 0 <= m < |t| ==> t[m] == s[k + 2 + m];
  }

  /** A middle name of two or more letters is not an initial: after the
      initial the pattern needs a dot, a final newline or the end. */
  lemma LongMiddleNameRejected(g: string, middle: string, rest: string)
    requires Group1Shape(g)
    requires |middle| >= 2 && IsAsciiLetter(middle[0]) && IsAsciiLetter(middle[1])
    ensures Parse(g + middle + rest) == None
  {
    var s := g + middle + rest;
    var i: nat, j: nat :| Group1At(g, i, j);
    var n := |g|;
    assert s[..n] == g;
    Group1Scan(g, i, j, s);
    assert s[n + 1] == middle[1];
    assert !DotsToEnd(s, n + 1);
  }
}
