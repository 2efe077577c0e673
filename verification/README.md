# X-Wines catalog matcher

A Dafny model of the catalog matcher of the wine reference API: the fuzzy
look-up `XWinesIndex.search` in `app/xwines.py`, which finds the catalog row
whose name best matches a free-text wine name and copies that row's facts into
a `WineDatasetMatch`.

- **Tokenizer** (`tokenizer.dfy`): `_tokenize` lower-cases the text and keeps
  the maximal runs of `[a-z0-9]`.
- **Scores** (`scores.dfy`): a row scores `|A ∩ B| / max(|A|, |B|)` against
  the query. This divides by the larger set, not the union, so it is not the
  Jaccard index. Scores are exact fractions compared by cross-multiplication;
  the 0.4 threshold reads `5 * overlap >= 2 * size`.
- **Rows** (`rows.dfy`): a row is a `map<string, string>`. `row.get(k)` is
  `Lookup`. Python's `a or b` on optional strings is `Or`, so a missing key
  and an empty value are treated alike.
- **Selection** (`selection.dfy`): the selection rule over the list of
  per-row scores (None for a skipped row). The rule: the earliest row of
  maximal score, if that score is at least 2/5 (`Choice`). The lemmas cover
  the scan step, uniqueness, the tie-break, and what appending or prepending
  a row does.
- **DatasetMatch** (`dataset_match.dfy`): the `WineDatasetMatch` built from
  the winning row (`BuildMatch`) and its `to_response_payload` dictionary.
- **Matcher** (`matcher.dfy`): `XWinesIndex`, row eligibility, the scan loop
  `BestRow`, and `Search`. `Search` is proved equal to the declarative
  `SearchSpec`.

Nothing here performs I/O. The catalog rows are an input. The numeric
conversions `_to_float` and `_to_int` are function parameters (`toFloat`,
`toInt`).

`search` returns no confidence score. The `wine_name` fallback to the query
(app/xwines.py:93) never takes effect in a returned match: a row is only
scored if its name is non-empty, so the winning row always has a name (see
`Matcher.Search`).

## Model

| member | source | states |
|---|---|---|
| Tokenizer.Lower | app/xwines.py:125 | `text.lower()` on ASCII: same length, each character lower-cased on its own, no upper-case letter left |
| Tokenizer.Runs | app/xwines.py:125 | every run it returns is a non-empty string of `[a-z0-9]` characters |
| Tokenizer.RunLengthIs | app/xwines.py:125 | a leading run of token characters that ends at a separator or at the end of the text is the run that is cut off |
| Tokenizer.RunsOfToken | app/xwines.py:125 | a well-formed token is split into exactly one run, itself |
| Tokenizer.RunsSplit | app/xwines.py:125 | a non-token character splits the text: the runs of `a + [c] + b` are the runs of `a` followed by the runs of `b`, so each run is maximal and none crosses a separator |
| Tokenizer.Tokenize | app/xwines.py:124-125 | every token of `_tokenize` is non-empty and made only of `a`-`z` and `0`-`9`; that the tokens are the maximal runs is stated by `Tokenizer.RunsSplit` and `Tokenizer.RunsOfToken` |
| Tokenizer.CaseInsensitive | app/xwines.py:125 | two texts that agree up to ASCII case give the same token list |
| Tokenizer.TokenizeIgnoresCase | app/xwines.py:125 | lower-casing a text before tokenizing it changes nothing |
| Tokenizer.NoTokensIff | app/xwines.py:68-70 | a text has no tokens exactly when none of its characters lower-cases to a letter or digit; an empty token list means an empty token set |
| Tokenizer.RunsCoverFilter | app/xwines.py:125 | the runs written one after another are exactly the `[a-z0-9]` characters of the text, in order |
| Tokenizer.TokensCoverText | app/xwines.py:124-125 | the tokens written one after another are exactly the letters and digits of the lower-cased text: nothing is lost or added |
| Tokenizer.RunsOfJoin | app/xwines.py:125 | splitting a space-joined list of well-formed tokens gives back that list |
| Tokenizer.RetokenizeJoin | app/xwines.py:124-125 | re-tokenizing the space-joined tokens of a text gives the same token list |
| Scores.SubsetCard | app/xwines.py:83-84 | support lemma for `OverlapScore` and `PerfectIffEqual`: a subset (here the overlap `a & b` inside either token set) is no larger than its superset, and equally large only when equal, which bounds the ratio by 1 and makes 1 mean equal sets |
| Scores.OverlapScore | app/xwines.py:83-84 | the score's numerator is the overlap size and its denominator the larger set size, so the score is at most 1 |
| Scores.ScoreBounds | app/xwines.py:83-84 | every score lies between 0 and 1 inclusive |
| Scores.ScoreSymmetric | app/xwines.py:83-84 | the score is the same with the two token sets swapped |
| Scores.PerfectIffEqual | app/xwines.py:83-84 | the score is 1 exactly when the two token sets are equal |
| Scores.ZeroIffDisjoint | app/xwines.py:83-84 | the score is 0 exactly when the two token sets share no token |
| Scores.ContainmentScore | app/xwines.py:83-90 | when one set contains the other the score is the ratio of their sizes, and it clears the threshold exactly when that ratio is at least 2/5 |
| Scores.AboveIsValueOrder | app/xwines.py:85 | the cross-multiplied comparison `score > best_score` is exactly the order of the fractions' values |
| Scores.AboveZero | app/xwines.py:73 | a score beats the starting `best_score = 0.0` exactly when its overlap is not 0 |
| Scores.AboveNotBelow | app/xwines.py:85-87 | a score above the current best is above every score that was not above the current best |
| Scores.Tied | app/xwines.py:85 | two scores neither of which is above the other have equal ratio value, so `>` keeps the earlier of them (used by `EarlierTieWins`) |
| Scores.ThresholdUpward | app/xwines.py:89-90 | a score not below one that clears the threshold clears it too |
| Scores.ThresholdIsTwoFifths | app/xwines.py:89-90 | `not (score < 0.4)` holds exactly when the score's value is at least 2/5 |
| Rows.Or | app/xwines.py:76 | Python `a or b` on optional strings: the first operand when it is truthy, the second operand when the first is falsy (so `"" or None` is None), and truthy exactly when one operand is |
| Rows.LookupTruthy | app/xwines.py:76 | `row.get(k)` is truthy exactly when the key is present with a non-empty value |
| Rows.FirstOf | app/xwines.py:94 | `row.get(k1) or row.get(k2)`: the first key with a non-empty value; otherwise a falsy value that is None exactly when the second key is absent |
| Rows.FirstOr | app/xwines.py:76 | `row.get(k1) or row.get(k2) or fallback`: the first non-empty value of the two keys, else the fallback |
| DatasetMatch.ToFloat | app/xwines.py:128-132 | a missing value converts to None (the caught `TypeError`); a present value's text is handed to the `float` conversion `toFloat` |
| DatasetMatch.ToInt | app/xwines.py:135-139 | a missing value converts to None (the caught `TypeError`); a present value's text is handed to the `int(float(...))` conversion `toInt` |
| DatasetMatch.BuildMatch | app/xwines.py:92-100 | `wine_name` is the row's non-empty `wine_name`, else its non-empty `name`, else the query; `winery`, `region` and `grape` take the first non-empty value of their key pair and otherwise the second key's raw value; `country` is copied; `avg_rating` converts the `rating` text when it is non-empty, else the `average_rating` text when that key is present, and is None when neither applies; `num_ratings` does the same with `num_reviews` and `reviews` |
| DatasetMatch.ToResponsePayload | app/xwines.py:33-42 | the payload has exactly the seven field keys, holds each field under its key with None as null, and reads back (`FromPayload`) to the same match |
| DatasetMatch.PayloadInjective | app/xwines.py:33-42 | two matches with the same payload are equal |
| Selection.ChoiceUnique | app/xwines.py:85-87 | at most one row satisfies the selection rule |
| Selection.ScanStep | app/xwines.py:85-87 | one loop step: a row scoring strictly above the best so far becomes the best, any other row leaves the best unchanged, and the best stays the earliest row of maximal positive score |
| Selection.PrefixBestExists | app/xwines.py:75-87 | after any number of rows, either every scored row scored 0 or some row is the earliest of maximal positive score |
| Selection.BestIsChoice | app/xwines.py:85-90 | the best row is returned exactly when it clears the threshold; if it does not, no row does |
| Selection.ChoiceExistsIff | app/xwines.py:85-90 | some row satisfies the selection rule exactly when some scored row clears the threshold |
| Selection.Choice | app/xwines.py:85-90 | the chosen row clears the threshold, is at least as high as every scored row and strictly above every earlier one; there is none exactly when no row clears the threshold |
| Selection.EarlierTieWins | app/xwines.py:85-87 | two rows both at the maximal score have equal ratio value; the later one is never chosen, the choice is at or before the earlier one |
| Selection.AppendNotAbove | app/xwines.py:85-87 | appending a row that is skipped or not strictly above the chosen one leaves the choice unchanged |
| Selection.AppendAbove | app/xwines.py:85-87 | appending a row strictly above the chosen one makes that new row the choice |
| Selection.PrependSkipped | app/xwines.py:76-81 | putting a skipped row in front moves the choice one place later and changes nothing else |
| Matcher.RowScore | app/xwines.py:76-84 | a row gets a score exactly when its name (`wine_name`, else `name`) is non-empty and has tokens; the score's numerator is the size of its overlap with the query tokens and its denominator the larger of the two token-set sizes |
| Matcher.ScoreList | app/xwines.py:75-84 | one optional score per catalog row, in catalog order: entry `j` is row `j`'s score, and every score has a positive denominator |
| Matcher.BestRow | app/xwines.py:72-87 | the loop's `best_row` is the earliest row of maximal positive score, or None when every scored row scored 0 (always the case for an empty query token set, where every score is 0); the returned `best_score` is that row's score, or 0 when there is none |
| Matcher.Search | app/xwines.py:64-100 | None for an empty catalog or a token-less query; otherwise None exactly when every scored row is below 0.4; a match is built from the unique earliest row of maximal score, has a non-empty name and shares a token with the query; and the result equals `SearchSpec` |
| Matcher.SkippedRowNeverChosen | app/xwines.py:76-81 | a row with an empty or token-less name is never chosen |
| Matcher.ContainedQueryMatches | app/xwines.py:83-90 | if the query's tokens contain a row's tokens, or are contained in them, at a size ratio of at least 2/5, a match is returned |
| Matcher.ExactNameMatches | app/xwines.py:83-90 | a query with the same token set as some row's name always finds a match |
| Matcher.ExactNameMatchIsPerfect | app/xwines.py:83-100 | for such a query the returned match's name has exactly the query's tokens (it scores 1), whichever row it comes from |
| Scores.NotBelowPerfect | app/xwines.py:83-86 | nothing is above a perfect score: a score that a perfect score is not above is itself perfect |
| Matcher.PunctuationOnlyFindsNothing | app/xwines.py:68-70 | a query with no letter or digit (whitespace or punctuation only) finds nothing |

## Left out

- `XWinesIndex.load_from_repo` and `_read_rows` (app/xwines.py:49-62, 103-121) probe the file system and parse CSV/JSON lines through library code. The model takes the row sequence as an input.
- DatasetMatch.ToFloat: `float(value)` (app/xwines.py:128-132) is the parameter `toFloat`. Which texts parse, and to what value, is not specified. The model states only that None gives None and that a present value's text is what reaches `toFloat`.
- DatasetMatch.ToInt: `int(float(value))` (app/xwines.py:135-139) is the parameter `toInt`. Parsing and truncation toward zero are not specified. The model states only that None gives None and that a present value's text is what reaches `toInt`.
- DatasetMatch.ToInt: `int(float(v))` raises `OverflowError` for text such as "inf" or "1e400". `_to_int` does not catch that error (app/xwines.py:137-138), so `search` raises when the winning row carries such a review count. The model's `toInt` always returns an optional value, so `Search` returns a match in that case instead of failing.
- DatasetMatch.BuildMatch: `avg_rating` is a `real`, so a Python float NaN or infinity from `_to_float` cannot be represented.
- `to_prompt_block` (app/xwines.py:21-31) is prompt text for the language model. It depends on Python's float-to-string formatting.
- Scores.OverlapScore: the source computes `overlap / max(...)` as a float and compares it with `>` and with the float `0.4`. The model compares the exact fractions. The two agree as long as token-set sizes stay far below 2^26, well above any wine name.
- Tokenizer.Lower: `str.lower()` is modelled for ASCII only. Non-ASCII case mappings that produce ASCII letters, for example 'İ' and the Kelvin sign U+212A, can give Python tokens that the model does not produce.
- A CSV row may hold a None value for a short line. The model's rows map strings to strings, and `row.get` treats such a value like a missing key.
- app/main.py is HTTP routing and an OpenAI network call, with no logic of its own.
- scripts/ui_loop.py is process management, sockets and screenshots.
- tests/test_wine_query_parsing.py exercises the HTTP layer through mocks. It depends on catalog file contents, and on vintage parsing and growing-season weather code that app/main.py does not define. So vintage extraction and climate aggregation are not part of this model.
