/**
 * Activity grade: five counters, each turned into a ratio of a fixed ceiling,
 * capped at 1 and weighted (40/25/15/15/5), summed into a score that is mapped
 * to a letter grade by fixed thresholds.
 */
module Grading {

  datatype Grade = APlus | A | BPlus | B | CPlus | C

  /** The text the stats card shows. */
  function Label(g: Grade): string {
    match g
    case APlus => "A+"
    case A => "A"
    case BPlus => "B+"
    case B => "B"
    case CPlus => "C+"
    case C => "C"
  }

  /** Position in the grade order: C is lowest, A+ highest. */
  function Rank(g: Grade): nat {
    match g
    case C => 0
    case CPlus => 1
    case B => 2
    case BPlus => 3
    case A => 4
    case APlus => 5
  }

  /** The lowest score that earns `g`; C has no threshold. */
  function Threshold(g: Grade): real
    requires g != C
  {
    match g
    case APlus => 90.0
    case A => 80.0
    case BPlus => 70.0
    case B => 60.0
    case CPlus => 50.0
  }

  /** The next higher grade. */
  function Above(g: Grade): Grade
    requires g != APlus
  {
    match g
    case A => APlus
    case BPlus => A
    case B => BPlus
    case CPlus => B
    case C => CPlus
  }

  /** The counters the stats card is built from. */
  datatype Counters = Counters(stars: nat, commits: nat, prs: nat, issues: nat, contribs: nat)

  /** `min(count / cap, 1) * weight`. */
  function Capped(count: nat, cap: nat, weight: real): (r: real)
    requires cap > 0 && weight >= 0.0
    ensures 0.0 <= r <= weight
  {
    var ratio := count as real / cap as real;
    RatioNonNegative(count, cap);
    var m := if 1.0 < ratio then 1.0 else ratio;
    ScaleBounds(m, weight);
    m * weight
  }

  lemma RatioNonNegative(count: nat, cap: nat)
    requires cap > 0
    ensures count as real / cap as real >= 0.0
  {
    var q := count as real / cap as real;
    assert q * cap as real == count as real;
  }

  lemma ScaleBounds(m: real, w: real)
    requires 0.0 <= m <= 1.0 && w >= 0.0
    ensures 0.0 <= m * w <= w
  {
    assert w - m * w == (1.0 - m) * w;
  }

  /** The score `build_grade` accumulates; no counter, however large, pushes it past 100. */
  function Score(c: Counters): (s: real)
    ensures 0.0 <= s <= 100.0
  {
    Capped(c.stars, 50, 40.0) + Capped(c.commits, 200, 25.0) + Capped(c.prs, 20, 15.0)
      + Capped(c.contribs, 10, 15.0) + Capped(c.issues, 30, 5.0)
  }

  /** The threshold ladder of `build_grade`. */
  function GradeOf(score: real): (g: Grade)
    ensures g != C ==> score >= Threshold(g)
    ensures g != APlus ==> score < Threshold(Above(g))
  {
    if score >= 90.0 then APlus
    else if score >= 80.0 then A
    else if score >= 70.0 then BPlus
    else if score >= 60.0 then B
    else if score >= 50.0 then CPlus
    else C
  }

  /** `build_grade`: accumulates the score term by term, then picks the grade. */
  method BuildGrade(stars: nat, commits: nat, prs: nat, issues: nat, contribs: nat)
    returns (grade: Grade)
    ensures grade == GradeOf(Score(Counters(stars, commits, prs, issues, contribs)))
  {
    var score := 0.0;
    score := score + Capped(stars, 50, 40.0);
    score := score + Capped(commits, 200, 25.0);
    score := score + Capped(prs, 20, 15.0);
    score := score + Capped(contribs, 10, 15.0);
    score := score + Capped(issues, 30, 5.0);

    if score >= 90.0 { return APlus; }
    if score >= 80.0 { return A; }
    if score >= 70.0 { return BPlus; }
    if score >= 60.0 { return B; }
    if score >= 50.0 { return CPlus; }
    return C;
  }

  // ---------------------------------------------------------------------------
  // Properties

  lemma CappedMonotone(count: nat, count': nat, cap: nat, weight: real)
    requires cap > 0 && weight >= 0.0 && count <= count'
    ensures Capped(count, cap, weight) <= Capped(count', cap, weight)
  {
    var q, q' := count as real / cap as real, count' as real / cap as real;
    assert q * cap as real == count as real;
    assert q' * cap as real == count' as real;
    assert q <= q';
    var m, m' := if 1.0 < q then 1.0 else q, if 1.0 < q' then 1.0 else q';
    assert m <= m';
    assert m' * weight - m * weight == (m' - m) * weight;
  }

  /** Raising any counter, or several, never lowers the score. */
  lemma ScoreMonotone(c: Counters, c': Counters)
    requires c.stars <= c'.stars && c.commits <= c'.commits && c.prs <= c'.prs
    requires c.issues <= c'.issues && c.contribs <= c'.contribs
    ensures Score(c) <= Score(c')
  {
    CappedMonotone(c.stars, c'.stars, 50, 40.0);
    CappedMonotone(c.commits, c'.commits, 200, 25.0);
    CappedMonotone(c.prs, c'.prs, 20, 15.0);
    CappedMonotone(c.contribs, c'.contribs, 10, 15.0);
    CappedMonotone(c.issues, c'.issues, 30, 5.0);
  }

  lemma CappedFull(count: nat, cap: nat, weight: real)
    requires cap > 0 && weight > 0.0
    ensures Capped(count, cap, weight) == weight <==> count >= cap
  {
    var q := count as real / cap as real;
    assert q * cap as real == count as real;
    if count < cap {
      assert q < 1.0;
      assert q * weight < weight;
    }
  }

  /** The score is exactly 100 when, and only when, every counter has reached
      its ceiling (50 stars, 200 commits, 20 pull requests, 10 contributed
      repositories, 30 issues). */
  lemma ScoreFullIffCapped(c: Counters)
    ensures Score(c) == 100.0 <==>
      c.stars >= 50 && c.commits >= 200 && c.prs >= 20 && c.contribs >= 10 && c.issues >= 30
  {
    CappedFull(c.stars, 50, 40.0);
    CappedFull(c.commits, 200, 25.0);
    CappedFull(c.prs, 20, 15.0);
    CappedFull(c.contribs, 10, 15.0);
    CappedFull(c.issues, 30, 5.0);
  }

  /** All counters at their ceilings give the top grade. */
  lemma FullCountersGiveTopGrade(c: Counters)
    requires c.stars >= 50 && c.commits >= 200 && c.prs >= 20 && c.contribs >= 10 && c.issues >= 30
    ensures GradeOf(Score(c)) == APlus
  {
    ScoreFullIffCapped(c);
  }

  /** A higher score never yields a lower grade. */
  lemma GradeMonotone(s: real, s': real)
    requires s <= s'
    ensures Rank(GradeOf(s)) <= Rank(GradeOf(s'))
  {
  }

  /** Raising counters never lowers the grade. */
  lemma GradeMonotoneInCounters(c: Counters, c': Counters)
    requires c.stars <= c'.stars && c.commits <= c'.commits && c.prs <= c'.prs
    requires c.issues <= c'.issues && c.contribs <= c'.contribs
    ensures Rank(GradeOf(Score(c))) <= Rank(GradeOf(Score(c')))
  {
    ScoreMonotone(c, c');
    GradeMonotone(Score(c), Score(c'));
  }
}
