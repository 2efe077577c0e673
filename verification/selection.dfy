/**
  The selection rule of `XWinesIndex.search` in app/xwines.py, on the scores
  alone. `ss[j]` is None when row `j` is skipped (empty name or no tokens) and
  `Some(s)` when it scored `s`. The rule: the earliest row of maximal score,
  provided that score is at least 2/5.
 */
module Selection {
  import opened Wrappers
  import opened Scores

  /** Every present score has a positive denominator. */
  predicate AllValid(ss: seq<Option<Score>>) {
    forall j :: 0 <= j < |ss| && ss[j].Some? ==> Valid(ss[j].value)
  }

  /** No scored entry among the first `n` is above entry `i`. */
  predicate MaximalIn(ss: seq<Option<Score>>, i: nat, n: nat)
    requires i < |ss| && ss[i].Some? && n <= |ss|
  {
    forall j :: 0 <= j < n && ss[j].Some? ==> !Above(ss[j].value, ss[i].value)
  }

  /** Entry `i` is strictly above every scored entry before it. */
  predicate IsEarliest(ss: seq<Option<Score>>, i: nat)
    requires i < |ss| && ss[i].Some?
  {
    forall j :: 0 <= j < i && ss[j].Some? ==> Above(ss[i].value, ss[j].value)
  }

  /** Entry `i` is the one to return: scored, at or above the threshold,
      maximal, and the earliest with its score. */
  predicate IsChoice(ss: seq<Option<Score>>, i: nat) {
    && i < |ss|
    && ss[i].Some?
    && MeetsThreshold(ss[i].value)
    && MaximalIn(ss, i, |ss|)
    && IsEarliest(ss, i)
  }

  /** Every scored entry is below the threshold. */
  predicate NoneClears(ss: seq<Option<Score>>) {
    forall j :: 0 <= j < |ss| && ss[j].Some? ==> !MeetsThreshold(ss[j].value)
  }

  /** The best entry of a prefix: scored positive, maximal in the prefix and
      the earliest with its score. */
  predicate PrefixBest(ss: seq<Option<Score>>, i: nat, n: nat) {
    && i < n <= |ss|
    && ss[i].Some?
    && ss[i].value.overlap > 0
    && MaximalIn(ss, i, n)
    && IsEarliest(ss, i)
  }

  /** Every scored entry among the first `n` is 0. */
  predicate AllZero(ss: seq<Option<Score>>, n: nat) {
    && n <= |ss|
    && forall j :: 0 <= j < n && ss[j].Some? ==> ss[j].value.overlap == 0
  }

  // ---------------------------------------------------------------------------

  /** At most one entry is the choice. */
  lemma ChoiceUnique(ss: seq<Option<Score>>, i: nat, j: nat)
    requires IsChoice(ss, i) && IsChoice(ss, j)
    ensures i == j
  {
  }

  /** One step of the scan: how the best of a prefix of length `n` determines
      the best of the prefix of length `n + 1`. */
  lemma ScanStep(ss: seq<Option<Score>>, best: Option<nat>, n: nat)
    requires AllValid(ss) && n < |ss|
    requires best.None? ==> AllZero(ss, n)
    requires best.Some? ==> PrefixBest(ss, best.value, n)
    ensures ss[n].None? ==> (best.None? ==> AllZero(ss, n + 1)) && (best.Some? ==> PrefixBest(ss, best.value, n + 1))
    ensures ss[n].Some? && best.None? && ss[n].value.overlap > 0 ==> PrefixBest(ss, n, n + 1)
    ensures ss[n].Some? && best.None? && ss[n].value.overlap == 0 ==> AllZero(ss, n + 1)
    ensures ss[n].Some? && best.Some? && Above(ss[n].value, ss[best.value].value) ==> PrefixBest(ss, n, n + 1)
    ensures ss[n].Some? && best.Some? && !Above(ss[n].value, ss[best.value].value) ==> PrefixBest(ss, best.value, n + 1)
  {
    if ss[n].Some? {
      var s := ss[n].value;
      if best.None? {
        if s.overlap > 0 {
          forall j | 0 <= j < n && ss[j].Some?
            ensures Above(s, ss[j].value)
          {
            assert ss[j].value.overlap == 0;
            AboveZero(s);
          }
        }
      } else {
        var b := ss[best.value].value;
        if Above(s, b) {
          forall j | 0 <= j < n && ss[j].Some?
            ensures Above(s, ss[j].value)
          {
            AboveNotBelow(ss[j].value, b, s);
          }
          AboveZero(b);
          AboveNotBelow(Zero, b, s);
          AboveZero(s);
        }
      }
    }
  }

  /** The scan's result over the first `n` entries. */
  lemma {:induction false} PrefixBestExists(ss: seq<Option<Score>>, n: nat)
    requires AllValid(ss) && n <= |ss|
    ensures AllZero(ss, n) || exists i: nat :: PrefixBest(ss, i, n)
  {
    if n > 0 {
      PrefixBestExists(ss, n - 1);
      if AllZero(ss, n - 1) {
        ScanStep(ss, None, n - 1);
      } else {
        var i: nat :| PrefixBest(ss, i, n - 1);
        ScanStep(ss, Some(i), n - 1);
      }
    }
  }

  /** The best of the whole sequence is the choice exactly when it clears the
      threshold, and otherwise nothing clears it. */
  lemma BestIsChoice(ss: seq<Option<Score>>, i: nat)
    requires AllValid(ss) && PrefixBest(ss, i, |ss|)
    ensures IsChoice(ss, i) <==> MeetsThreshold(ss[i].value)
    ensures !MeetsThreshold(ss[i].value) ==> NoneClears(ss)
  {
    if !MeetsThreshold(ss[i].value) {
      forall j | 0 <= j < |ss| && ss[j].Some?
        ensures !MeetsThreshold(ss[j].value)
      {
        if MeetsThreshold(ss[j].value) {
          ThresholdUpward(ss[i].value, ss[j].value);
        }
      }
    }
  }

  /** With every scored entry 0, nothing clears the threshold. */
  lemma AllZeroNoneClears(ss: seq<Option<Score>>)
    requires AllValid(ss) && AllZero(ss, |ss|)
    ensures NoneClears(ss)
  {
  }

  /** Some entry is the choice exactly when some scored entry clears the
      threshold. */
  lemma ChoiceExistsIff(ss: seq<Option<Score>>)
    requires AllValid(ss)
    ensures (exists i: nat :: IsChoice(ss, i)) <==> !NoneClears(ss)
  {
    PrefixBestExists(ss, |ss|);
    if AllZero(ss, |ss|) {
      AllZeroNoneClears(ss);
    } else {
      var i: nat :| PrefixBest(ss, i, |ss|);
      BestIsChoice(ss, i);
    }
  }

  /** The index to return, if any. */
  ghost function Choice(ss: seq<Option<Score>>): (c: Option<nat>)
    requires AllValid(ss)
    ensures c.Some? ==> IsChoice(ss, c.value)
    ensures c.None? <==> NoneClears(ss)
  {
    ChoiceExistsIff(ss);
    if exists i: nat :: IsChoice(ss, i) then
      var i: nat :| IsChoice(ss, i); Some(i)
    else None
  }

  /** Tie-break: when entries `i < j` share the maximal score and clear the
      threshold, the choice is at or before `i`, never `j`. */
  lemma EarlierTieWins(ss: seq<Option<Score>>, i: nat, j: nat)
    requires AllValid(ss) && i < j < |ss| && ss[i].Some? && ss[j].Some?
    requires MaximalIn(ss, i, |ss|) && MaximalIn(ss, j, |ss|)
    requires MeetsThreshold(ss[i].value)
    ensures Value(ss[i].value) == Value(ss[j].value)
    ensures Choice(ss).Some? && Choice(ss).value <= i
  {
    Tied(ss[i].value, ss[j].value);
    assert !NoneClears(ss);
  }

  /** Appending an entry that is skipped or not above the current choice
      leaves the choice unchanged. */
  lemma AppendNotAbove(ss: seq<Option<Score>>, x: Option<Score>)
    requires AllValid(ss) && (x.Some? ==> Valid(x.value)) && Choice(ss).Some?
    requires x.Some? ==> !Above(x.value, ss[Choice(ss).value].value)
    ensures AllValid(ss + [x])
    ensures Choice(ss + [x]) == Choice(ss)
  {
    var i := Choice(ss).value;
    var ss' := ss + [x];
    assert forall j :: 0 <= j < |ss| ==> ss'[j] == ss[j];
    assert IsChoice(ss', i);
    ChoiceUnique(ss', i, Choice(ss').value);
  }

  /** Appending an entry above the current choice makes it the new choice. */
  lemma AppendAbove(ss: seq<Option<Score>>, x: Option<Score>)
    requires AllValid(ss) && (x.Some? ==> Valid(x.value)) && Choice(ss).Some?
    requires x.Some? && Above(x.value, ss[Choice(ss).value].value)
    ensures AllValid(ss + [x])
    ensures Choice(ss + [x]) == Some(|ss|)
  {
    var i := Choice(ss).value;
    var ss' := ss + [x];
    assert forall j :: 0 <= j < |ss| ==> ss'[j] == ss[j];
    var b := ss[i].value;
    forall j | 0 <= j < |ss| && ss[j].Some?
      ensures Above(x.value, ss[j].value)
    {
      AboveNotBelow(ss[j].value, b, x.value);
    }
    AboveIsValueOrder(x.value, b);
    ThresholdIsTwoFifths(b);
    ThresholdIsTwoFifths(x.value);
    assert IsChoice(ss', |ss|);
    ChoiceUnique(ss', |ss|, Choice(ss').value);
  }

  /** The choice of `ss` is the choice of `[None] + ss`, one place later. */
  lemma ShiftIsChoice(ss: seq<Option<Score>>, i: nat)
    requires IsChoice(ss, i)
    ensures IsChoice([None] + ss, i + 1)
  {
    var ss' := [None] + ss;
    assert ss'[i + 1] == ss[i];
    assert MaximalIn(ss', i + 1, |ss'|) by {
      forall j | 0 <= j < |ss'| && ss'[j].Some?
        ensures !Above(ss'[j].value, ss'[i + 1].value)
      {
        assert ss'[j] == ss[j - 1];
      }
    }
    assert IsEarliest(ss', i + 1) by {
      forall j | 0 <= j < i + 1 && ss'[j].Some?
        ensures Above(ss'[i + 1].value, ss'[j].value)
      {
        assert ss'[j] == ss[j - 1];
      }
    }
  }

  /** A skipped entry in front keeps every entry below the threshold. */
  lemma ShiftNoneClears(ss: seq<Option<Score>>)
    requires NoneClears(ss)
    ensures NoneClears([None] + ss)
  {
    var ss' := [None] + ss;
    forall j | 0 <= j < |ss'| && ss'[j].Some?
      ensures !MeetsThreshold(ss'[j].value)
    {
      assert ss'[j] == ss[j - 1];
    }
  }

  /** Putting a skipped entry in front shifts the choice by one place. */
  lemma PrependSkipped(ss: seq<Option<Score>>)
    requires AllValid(ss)
    ensures AllValid([None] + ss)
    ensures Choice([None] + ss) == (if Choice(ss).Some? then Some(Choice(ss).value + 1) else None)
  {
    var ss' := [None] + ss;
    assert AllValid(ss') by {
      forall j | 0 <= j < |ss'| && ss'[j].Some?
        ensures Valid(ss'[j].value)
      {
        assert ss'[j] == ss[j - 1];
      }
    }
    var c := Choice(ss);
    if c.Some? {
      ShiftIsChoice(ss, c.value);
      ChoiceUnique(ss', c.value + 1, Choice(ss').value);
    } else {
      ShiftNoneClears(ss);
    }
  }
}
