/**
  The match score of app/xwines.py: the size of the overlap of two token sets
  divided by the size of the LARGER set (an overlap coefficient, not the
  Jaccard index). Scores are kept as exact fractions and compared by
  cross-multiplication.
 */
module Scores {

  /** The fraction `overlap / size`. */
  datatype Score = Score(overlap: nat, size: nat)

  predicate Valid(s: Score) {
    0 < s.size
  }

  /** The score a search starts from before any row is seen (`0.0`). */
  const Zero: Score := Score(0, 1)

  function Max(a: nat, b: nat): nat {
    if a >= b then a else b
  }

  /** A subset is no larger than its superset, and equally large only when equal. */
  lemma {:induction false} SubsetCard<T>(a: set<T>, b: set<T>)
    requires a <= b
    ensures |a| <= |b|
    ensures |a| == |b| ==> a == b
  {
    assert b == a + (b - a);
    assert |b| == |a| + |b - a|;
    if |a| == |b| {
      assert |b - a| == 0;
    }
  }

  /** `len(a & b) / max(len(a), len(b))` for two non-empty token sets. */
  function OverlapScore<T>(a: set<T>, b: set<T>): (s: Score)
    requires a != {} && b != {}
    ensures Valid(s)
    ensures s.overlap == |a * b|
    ensures s.size >= |a| && s.size >= |b| && (s.size == |a| || s.size == |b|)
    ensures s.overlap <= s.size
  {
    SubsetCard(a * b, a);
    Score(|a * b|, Max(|a|, |b|))
  }

  /** `s > t` as fractions. */
  predicate Above(s: Score, t: Score) {
    s.overlap * t.size > t.overlap * s.size
  }

  /** `not (s < 0.4)`, i.e. `s >= 2/5`. */
  predicate MeetsThreshold(s: Score) {
    5 * s.overlap >= 2 * s.size
  }

  /** The exact value of a score. */
  function Value(s: Score): real
    requires Valid(s)
  {
    s.overlap as real / s.size as real
  }

  // ---------------------------------------------------------------------------

  /** Every score lies between 0 and 1 inclusive. */
  lemma ScoreBounds<T>(a: set<T>, b: set<T>)
    requires a != {} && b != {}
    ensures 0.0 <= Value(OverlapScore(a, b)) <= 1.0
  {
    var s := OverlapScore(a, b);
    assert s.overlap as real <= s.size as real;
  }

  /** The score does not depend on the order of its two arguments. */
  lemma ScoreSymmetric<T>(a: set<T>, b: set<T>)
    requires a != {} && b != {}
    ensures OverlapScore(a, b) == OverlapScore(b, a)
  {
    assert a * b == b * a;
  }

  /** The score is 1 exactly when the two token sets are equal. */
  lemma {:induction false} PerfectIffEqual<T>(a: set<T>, b: set<T>)
    requires a != {} && b != {}
    ensures OverlapScore(a, b).overlap == OverlapScore(a, b).size <==> a == b
  {
    SubsetCard(a * b, a);
    SubsetCard(a * b, b);
    if a == b {
      assert a * b == a;
    }
  }

  /** The score is 0 exactly when the two token sets are disjoint. */
  lemma ZeroIffDisjoint<T>(a: set<T>, b: set<T>)
    requires a != {} && b != {}
    ensures OverlapScore(a, b).overlap == 0 <==> a !! b
  {
    if a * b != {} {
      var x :| x in a * b;
      assert x in a && x in b;
      assert !(a !! b);
      assert |a * b| != 0;
    } else {
      forall x | x in a
        ensures x !in b
      {
        assert x !in a * b;
      }
    }
  }

  /** When one token set contains the other, the score is the ratio of their
      sizes, so containment with a size ratio of at least 2/5 always clears
      the threshold. */
  lemma ContainmentScore<T>(a: set<T>, b: set<T>)
    requires a != {} && a <= b
    ensures OverlapScore(a, b) == Score(|a|, |b|)
    ensures MeetsThreshold(OverlapScore(a, b)) <==> 5 * |a| >= 2 * |b|
  {
    SubsetCard(a, b);
    assert a * b == a;
  }

  // ---------------------------------------------------------------------------
  // `Above` is the order of the fractions' values.

  lemma {:induction false} AboveIsValueOrder(s: Score, t: Score)
    requires Valid(s) && Valid(t)
    ensures Above(s, t) <==> Value(s) > Value(t)
  {
    var so, sd, to, td := s.overlap as real, s.size as real, t.overlap as real, t.size as real;
    var vs, vt := so / sd, to / td;
    assert so == vs * sd;
    assert to == vt * td;
    assert (s.overlap * t.size) as real == so * td;
    assert (t.overlap * s.size) as real == to * sd;
    assert so * td - to * sd == (vs - vt) * (sd * td);
    assert sd * td > 0.0;
  }

  /** A score is above the starting score exactly when it is not 0. */
  lemma AboveZero(s: Score)
    requires Valid(s)
    ensures Above(s, Zero) <==> s.overlap > 0
  {
  }

  /** If `c > b` and not `a > b`, then `c > a`: what makes a newly accepted
      best row beat every row before it. */
  lemma AboveNotBelow(a: Score, b: Score, c: Score)
    requires Valid(a) && Valid(b) && Valid(c)
    requires !Above(a, b) && Above(c, b)
    ensures Above(c, a)
  {
    AboveIsValueOrder(a, b);
    AboveIsValueOrder(c, b);
    AboveIsValueOrder(c, a);
  }

  /** Multiplying by a factor keeps order, and by a positive factor strict
      order. */
  lemma {:induction false} MulMono(n: nat, a: nat, b: nat)
    ensures a <= b ==> n * a <= n * b
    ensures n > 0 && a < b ==> n * a < n * b
  {
    if n > 0 {
      MulMono(n - 1, a, b);
      assert n * a == (n - 1) * a + a;
      assert n * b == (n - 1) * b + b;
    }
  }

  /** Nothing is above a perfect score: a score that a perfect one is not
      above is perfect too. */
  lemma NotBelowPerfect(p: Score, s: Score)
    requires Valid(p) && p.overlap == p.size
    requires Valid(s) && s.overlap <= s.size
    requires !Above(p, s)
    ensures s.overlap == s.size
  {
    var n, o, m := p.size, s.overlap, s.size;
    assert n * m <= n * o;
    MulMono(n, o, m);
  }

  /** Neither above the other means equal value. */
  lemma Tied(s: Score, t: Score)
    requires Valid(s) && Valid(t)
    requires !Above(s, t) && !Above(t, s)
    ensures Value(s) == Value(t)
  {
    AboveIsValueOrder(s, t);
    AboveIsValueOrder(t, s);
  }

  /** A score that is not below one meeting the threshold meets it too. */
  lemma ThresholdUpward(s: Score, t: Score)
    requires Valid(s) && Valid(t)
    requires MeetsThreshold(t) && !Above(t, s)
    ensures MeetsThreshold(s)
  {
    // value(t) >= 2/5 and value(t) <= value(s)
    ThresholdIsTwoFifths(t);
    ThresholdIsTwoFifths(s);
    AboveIsValueOrder(t, s);
  }

  /** The threshold in terms of the score's value. */
  lemma ThresholdIsTwoFifths(s: Score)
    requires Valid(s)
    ensures MeetsThreshold(s) <==> Value(s) >= 0.4
  {
    var so, sd := s.overlap as real, s.size as real;
    assert so == Value(s) * sd;
  }
}
