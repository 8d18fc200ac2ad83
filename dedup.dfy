/** Appending with a membership guard, as `compareECtoVIVO` does for both of
    its output lists (`if row not in rows: rows.append(row)`). */
module Distinct {

  predicate NoDuplicates<T(==)>(s: seq<T>) {
    forall i, j :: 0 <= i < j < |s| ==> s[i] != s[j]
  }

  /** `d` after each element of `s`, in order, has been appended unless
      already present. */
  function Extend<T(==,!new)>(d: seq<T>, s: seq<T>): (r: seq<T>)
    ensures NoDuplicates(d) ==> NoDuplicates(r)
    ensures forall x :: x in r <==> x in d || x in s
    ensures |d| <= |r| <= |d| + |s| && r[..|d|] == d
  {
    if s == [] then d
    else
      var e := Extend(d, s[..|s| - 1]);
      var x := s[|s| - 1];
      assert s == s[..|s| - 1] + [x];
      if x in e then e else e + [x]
  }

  /** The duplicate-free list of the elements of `s`, in order of first occurrence. */
  function Dedup<T(==,!new)>(s: seq<T>): seq<T> {
    Extend([], s)
  }

  /** One guarded append. */
  lemma ExtendSnoc<T(!new)>(d: seq<T>, s: seq<T>, x: T)
    ensures Extend(d, s + [x]) == (var e := Extend(d, s); if x in e then e else e + [x])
  {
    assert (s + [x])[..|s|] == s;
  }

  /** Guarded appends of `a` and then of `b` are the guarded appends of `a + b`. */
  lemma {:induction false} ExtendConcat<T(!new)>(d: seq<T>, a: seq<T>, b: seq<T>)
    ensures Extend(Extend(d, a), b) == Extend(d, a + b)
  {
    if b == [] {
      assert a + b == a;
    } else {
      var b' := b[..|b| - 1];
      var x := b[|b| - 1];
      assert b == b' + [x];
      ExtendConcat(d, a, b');
      ExtendSnoc(Extend(d, a), b', x);
      assert a + b == (a + b') + [x];
      ExtendSnoc(d, a + b', x);
    }
  }

  /** A list without duplicates is left as it is. */
  lemma {:induction false} DedupOfDistinct<T(!new)>(s: seq<T>)
    requires NoDuplicates(s)
    ensures Dedup(s) == s
  {
    if s != [] {
      var s' := s[..|s| - 1];
      var x := s[|s| - 1];
      assert s == s' + [x];
      assert NoDuplicates(s');
      DedupOfDistinct(s');
      ExtendSnoc([], s', x);
      assert x !in s';
    }
  }

  /** Removing duplicates twice is removing them once. */
  lemma DedupIdempotent<T(!new)>(s: seq<T>)
    ensures Dedup(Dedup(s)) == Dedup(s)
  {
    DedupOfDistinct(Dedup(s));
  }
}
