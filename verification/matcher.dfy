/**
  `XWinesIndex.search` of app/xwines.py: fuzzy look-up of a wine name in an
  ordered list of catalog rows.

  Each row is scored against the query's token set (`RowScore`), giving one
  optional score per row (`ScoreList`); the rule for picking among them is the
  `Choice` of module Selection. `SearchSpec` states the whole result
  declaratively, and `Search` is the source's single left-to-right scan,
  proved equal to it.
 */
module Matcher {
  import opened Wrappers
  import opened Tokenizer
  import opened Scores
  import opened Rows
  import opened DatasetMatch
  import opened Selection

  /** The catalog, in load order. */
  datatype XWinesIndex = XWinesIndex(rows: seq<Row>)

  /** `row.get("wine_name") or row.get("name") or ""` */
  function RowName(row: Row): string {
    FirstOr(row, "wine_name", "name", "")
  }

  /** A row takes part in the scan only if its name is non-empty and has at
      least one token. */
  predicate Eligible(row: Row) {
    RowName(row) != "" && TokenSet(RowName(row)) != {}
  }

  /** The score of a row against the query tokens `q`; None for a row the
      scan skips. */
  function RowScore(q: set<string>, row: Row): (s: Option<Score>)
    requires q != {}
    ensures s.Some? <==> Eligible(row)
    ensures s.Some? ==> Valid(s.value) && s.value.overlap == |q * TokenSet(RowName(row))|
    ensures s.Some? ==> s.value.size == Max(|q|, |TokenSet(RowName(row))|)
  {
    if Eligible(row) then Some(OverlapScore(q, TokenSet(RowName(row)))) else None
  }

  /** One optional score per row, in row order. */
  function ScoreList(rows: seq<Row>, q: set<string>): (ss: seq<Option<Score>>)
    requires q != {}
    ensures |ss| == |rows|
    ensures AllValid(ss)
    ensures forall j :: 0 <= j < |rows| ==> ss[j] == RowScore(q, rows[j])
  {
    seq(|rows|, j requires 0 <= j < |rows| => RowScore(q, rows[j]))
  }

  /** What `search` returns, stated declaratively: nothing for an empty
      catalog or a query without tokens; otherwise the match built from the
      `Choice` row, if there is one. */
  ghost function SearchSpec(index: XWinesIndex, wineName: string,
                            toFloat: string -> Option<real>, toInt: string -> Option<int>): Option<WineDatasetMatch>
  {
    var q := TokenSet(wineName);
    if |index.rows| == 0 || q == {} then None
    else
      match Choice(ScoreList(index.rows, q))
      case None => None
      case Some(i) => Some(BuildMatch(index.rows[i], wineName, toFloat, toInt))
  }

  // ---------------------------------------------------------------------------
  // The scan

  /** The `for row in self.rows` loop: the index of the earliest row with the
      highest positive score, or None if every row it scores scores 0. With
      no query tokens every score would be 0, which never beats the starting
      `best_score`, so nothing is picked. `bestScore` is the loop's
      `best_score`: the chosen row's score, or 0 when there is none. */
  method BestRow(rows: seq<Row>, q: set<string>) returns (best: Option<nat>, bestScore: Score)
    ensures q == {} ==> best.None?
    ensures best.None? ==> bestScore == Zero
    ensures q != {} && best.Some? ==> PrefixBest(ScoreList(rows, q), best.value, |rows|)
    ensures q != {} && best.None? ==> AllZero(ScoreList(rows, q), |rows|)
    ensures q != {} && best.Some? ==> ScoreList(rows, q)[best.value] == Some(bestScore)
  {
    best, bestScore := None, Zero;
    if q == {} {
      return;
    }
    var k := 0;
    while k < |rows|
      invariant k <= |rows|
      invariant best.None? ==> bestScore == Zero && AllZero(ScoreList(rows, q), k)
      invariant best.Some? ==> PrefixBest(ScoreList(rows, q), best.value, k)
      invariant best.Some? ==> bestScore == ScoreList(rows, q)[best.value].value
    {
      ScanStep(ScoreList(rows, q), best, k);
      var name := RowName(rows[k]);
      if name != "" {
        var rowTokens := TokenSet(name);
        if rowTokens != {} {
          var score := OverlapScore(q, rowTokens);
          assert ScoreList(rows, q)[k] == Some(score);
          AboveZero(score);
          if Above(score, bestScore) {
            best := Some(k);
            bestScore := score;
          }
        }
      }
      k := k + 1;
    }
  }

  /** `XWinesIndex.search(wine_name)` */
  method Search(index: XWinesIndex, wineName: string,
                toFloat: string -> Option<real>, toInt: string -> Option<int>)
    returns (r: Option<WineDatasetMatch>)
    ensures |index.rows| == 0 ==> r.None?
    ensures TokenSet(wineName) == {} ==> r.None?
    ensures TokenSet(wineName) != {} ==> (r.None? <==> NoneClears(ScoreList(index.rows, TokenSet(wineName))))
    ensures r.Some? ==> exists i: nat :: && IsChoice(ScoreList(index.rows, TokenSet(wineName)), i)
                                         && r.value == BuildMatch(index.rows[i], wineName, toFloat, toInt)
    ensures r.Some? ==> r.value.wineName != "" && TokenSet(r.value.wineName) * TokenSet(wineName) != {}
    ensures r == SearchSpec(index, wineName, toFloat, toInt)
  {
    if |index.rows| == 0 {
      return None;
    }
    var target := TokenSet(wineName);
    if target == {} {
      return None;
    }
    ghost var ss := ScoreList(index.rows, target);
    var best, bestScore := BestRow(index.rows, target);
    if best.None? || !MeetsThreshold(bestScore) {
      if best.None? {
        AllZeroNoneClears(ss);
      } else {
        BestIsChoice(ss, best.value);
      }
      return None;
    }
    var i := best.value;
    var row := index.rows[i];
    BestIsChoice(ss, i);
    ChoiceUnique(ss, i, Choice(ss).value);
    r := Some(BuildMatch(row, wineName, toFloat, toInt));
    assert r.value.wineName == RowName(row);
    ZeroIffDisjoint(target, TokenSet(RowName(row)));
    var t :| t in target && t in TokenSet(RowName(row));
    assert t in TokenSet(r.value.wineName) * target;
  }

  // ---------------------------------------------------------------------------
  // Properties of the specification

  /** A row whose name is empty or has no tokens is never returned. */
  lemma SkippedRowNeverChosen(index: XWinesIndex, wineName: string, i: nat)
    requires TokenSet(wineName) != {} && i < |index.rows| && !Eligible(index.rows[i])
    ensures Choice(ScoreList(index.rows, TokenSet(wineName))) != Some(i)
  {
    assert ScoreList(index.rows, TokenSet(wineName))[i].None?;
  }

  /** A query whose tokens are contained in a row's tokens (or contain them)
      at a size ratio of at least 2/5 always finds a match. */
  lemma ContainedQueryMatches(index: XWinesIndex, wineName: string, i: nat,
                              toFloat: string -> Option<real>, toInt: string -> Option<int>)
    requires i < |index.rows| && Eligible(index.rows[i])
    requires var q, t := TokenSet(wineName), TokenSet(RowName(index.rows[i]));
             q != {} && ((q <= t && 5 * |q| >= 2 * |t|) || (t <= q && 5 * |t| >= 2 * |q|))
    ensures SearchSpec(index, wineName, toFloat, toInt).Some?
  {
    var q, t := TokenSet(wineName), TokenSet(RowName(index.rows[i]));
    var ss := ScoreList(index.rows, q);
    assert ss[i] == Some(OverlapScore(q, t));
    if q <= t && 5 * |q| >= 2 * |t| {
      ContainmentScore(q, t);
    } else {
      ContainmentScore(t, q);
      ScoreSymmetric(q, t);
    }
    assert MeetsThreshold(ss[i].value);
    assert !NoneClears(ss);
  }

  /** A query that names a catalog row exactly (same token set) always finds
      a match. */
  lemma ExactNameMatches(index: XWinesIndex, wineName: string, i: nat,
                         toFloat: string -> Option<real>, toInt: string -> Option<int>)
    requires i < |index.rows| && Eligible(index.rows[i])
    requires TokenSet(wineName) == TokenSet(RowName(index.rows[i]))
    ensures SearchSpec(index, wineName, toFloat, toInt).Some?
  {
    var q := TokenSet(wineName);
    SubsetCard(q, q);
    ContainedQueryMatches(index, wineName, i, toFloat, toInt);
  }

  /** For a query that names a catalog row exactly, the match scores 1
      against the query: its name has exactly the query's tokens, though it
      may come from another row than `i`. */
  lemma ExactNameMatchIsPerfect(index: XWinesIndex, wineName: string, i: nat,
                                toFloat: string -> Option<real>, toInt: string -> Option<int>)
    requires i < |index.rows| && Eligible(index.rows[i])
    requires TokenSet(wineName) == TokenSet(RowName(index.rows[i]))
    ensures SearchSpec(index, wineName, toFloat, toInt).Some?
    ensures TokenSet(SearchSpec(index, wineName, toFloat, toInt).value.wineName) == TokenSet(wineName)
  {
    ExactNameMatches(index, wineName, i, toFloat, toInt);
    var q := TokenSet(wineName);
    var ss := ScoreList(index.rows, q);
    var j := Choice(ss).value;
    var t := TokenSet(RowName(index.rows[j]));
    PerfectIffEqual(q, q);
    assert ss[i] == Some(OverlapScore(q, q));
    assert ss[j] == Some(OverlapScore(q, t));
    NotBelowPerfect(ss[i].value, ss[j].value);
    PerfectIffEqual(q, t);
    assert SearchSpec(index, wineName, toFloat, toInt).value.wineName == RowName(index.rows[j]);
  }

  /** A query with no letter or digit finds nothing, whatever the catalog. */
  lemma PunctuationOnlyFindsNothing(index: XWinesIndex, wineName: string,
                                    toFloat: string -> Option<real>, toInt: string -> Option<int>)
    requires forall k :: 0 <= k < |wineName| ==> !IsTokenChar(ToLower(wineName[k]))
    ensures SearchSpec(index, wineName, toFloat, toInt).None?
  {
    NoTokensIff(wineName);
  }
}
