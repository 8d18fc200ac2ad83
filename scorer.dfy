/** `matchingAlgos` of eCommonsVIVO.py: two foreign similarity measures,
    a middle-initial collision penalty, and the larger of the two scores. */
module Scorer {
  import opened Wrappers
  import MiddleInitial

  /** The two similarity measures, which live in foreign libraries
      (`fuzz.ratio` and `strikeamatch.compare_strings` scaled by 100).
      Nothing is assumed about them. */
  datatype Similarity = Similarity(ratio: (string, string) -> int, strike: (string, string) -> int)

  /** Points taken from both scores when only the middle initials differ. */
  const Penalty: int := 10

  /** Both names have the "Surname, First X." shape with the same surname and
      first name but a different initial. */
  predicate PenaltyApplies(s1: string, s2: string) {
    match (MiddleInitial.Parse(s1), MiddleInitial.Parse(s2))
    case (Some((g1, i1)), Some((g2, i2))) => g1 == g2 && i1 != i2
    case _ => false
  }

  /** The two scores after the penalty rule: either both raw scores, or both
      exactly `Penalty` lower. */
  function AdjustedScores(sim: Similarity, s1: string, s2: string): (r: (int, int))
    ensures PenaltyApplies(s1, s2) ==>
              r == (sim.ratio(s1, s2) - Penalty, sim.strike(s1, s2) - Penalty)
    ensures !PenaltyApplies(s1, s2) ==> r == (sim.ratio(s1, s2), sim.strike(s1, s2))
  {
    var d := if PenaltyApplies(s1, s2) then Penalty else 0;
    (sim.ratio(s1, s2) - d, sim.strike(s1, s2) - d)
  }

  /** The score of a pair: the larger of the two adjusted scores.  The
      diagnostic printing of the source has no influence on it. */
  function MatchingAlgos(sim: Similarity, s1: string, s2: string): (r: int)
    ensures var (a1, a2) := AdjustedScores(sim, s1, s2);
            r >= a1 && r >= a2 && (r == a1 || r == a2)
  {
    var (a1, a2) := AdjustedScores(sim, s1, s2);
    if a1 >= a2 then a1 else a2
  }

  function Max(a: int, b: int): int { if a >= b then a else b }

  /** Without the penalty the score is the larger raw score; with it, that
      value less exactly `Penalty`. */
  lemma ScoreIsShiftedMax(sim: Similarity, s1: string, s2: string)
    ensures MatchingAlgos(sim, s1, s2)
            == Max(sim.ratio(s1, s2), sim.strike(s1, s2)) - (if PenaltyApplies(s1, s2) then Penalty else 0)
  {
  }

  /** Whether the penalty applies does not depend on the order of the names. */
  lemma PenaltySymmetric(s1: string, s2: string)
    ensures PenaltyApplies(s1, s2) == PenaltyApplies(s2, s1)
  {
  }

  /** Two names of the shape "Surname, First X." with the same surname and
      first name collide exactly when their initials differ, whatever
      trailing dots either carries. */
  lemma PenaltyOnNames(g: string, c1: char, c2: char, t1: string, t2: string)
    requires MiddleInitial.Group1Shape(g)
    requires MiddleInitial.IsAsciiLetter(c1) && MiddleInitial.IsAsciiLetter(c2)
    requires MiddleInitial.DotsToEnd(t1, 0) && MiddleInitial.DotsToEnd(t2, 0)
    ensures PenaltyApplies(g + [c1] + t1, g + [c2] + t2) <==> c1 != c2
  {
    MiddleInitial.ParseComplete(g, c1, t1);
    MiddleInitial.ParseComplete(g, c2, t2);
  }

  /** Conversely, a penalised pair is two names of that shape that share
      their surname and first name and differ only in the initial and in
      their trailing dots. */
  lemma PenaltyDecomposes(s1: string, s2: string)
    requires PenaltyApplies(s1, s2)
    ensures var (g, c1) := MiddleInitial.Parse(s1).value;
            var c2 := MiddleInitial.Parse(s2).value.1;
            && MiddleInitial.Group1Shape(g)
            && MiddleInitial.IsAsciiLetter(c1) && MiddleInitial.IsAsciiLetter(c2) && c1 != c2
            && |g| < |s1| && |g| < |s2|
            && s1 == g + [c1] + s1[|g| + 1..] && s2 == g + [c2] + s2[|g| + 1..]
            && MiddleInitial.DotsToEnd(s1[|g| + 1..], 0) && MiddleInitial.DotsToEnd(s2[|g| + 1..], 0)
  {
    MiddleInitial.ParseSound(s1);
    MiddleInitial.ParseSound(s2);
  }

  /** "Smith, John A." and "Smith, John B." collide: however near the raw
      scores are, both lose ten points.  Raw scores of 95 and 93, above the
      acceptance threshold of 90, become a score of 85, below it. */
  lemma InitialCollisionExample(sim: Similarity)
    requires sim.ratio("Smith, John A.", "Smith, John B.") == 95
    requires sim.strike("Smith, John A.", "Smith, John B.") == 93
    ensures PenaltyApplies("Smith, John A.", "Smith, John B.")
    ensures MatchingAlgos(sim, "Smith, John A.", "Smith, John B.") == 85
  {
    SmithParses('A');
    SmithParses('B');
    SmithNames();
  }

  lemma SmithParses(c: char)
    requires MiddleInitial.IsAsciiLetter(c)
    ensures MiddleInitial.Parse("Smith, John " + [c] + ".") == Some(("Smith, John ", c))
  {
    assert MiddleInitial.Group1At("Smith, John ", 5, 7);
    MiddleInitial.ParseComplete("Smith, John ", c, ".");
  }

  lemma SmithNames()
    ensures "Smith, John " + ['A'] + "." == "Smith, John A."
    ensures "Smith, John " + ['B'] + "." == "Smith, John B."
  {
  }

  /** Identical names never collide, so the score of a name against itself
      is the larger raw score. */
  lemma NoPenaltyOnSameName(sim: Similarity, s: string)
    ensures !PenaltyApplies(s, s)
    ensures MatchingAlgos(sim, s, s) == Max(sim.ratio(s, s), sim.strike(s, s))
  {
  }
}
