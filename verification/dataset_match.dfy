/**
  `WineDatasetMatch` of app/xwines.py: the catalog facts copied out of the
  winning row, and their `to_response_payload` dictionary.

  The numeric conversions `_to_float` and `_to_int` are not modelled: they are
  parameters (`toFloat`, `toInt`) that turn a non-empty value's text into an
  optional number. What is modelled is which text reaches them, and that a
  missing value (Python's `TypeError` on `None`) yields None.
 */
module DatasetMatch {
  import opened Wrappers
  import opened Rows

  datatype WineDatasetMatch = WineDatasetMatch(
    wineName: string,
    winery: Option<string>,
    country: Option<string>,
    region: Option<string>,
    grape: Option<string>,
    avgRating: Option<real>,
    numRatings: Option<int>
  )

  /** `_to_float(value)` with the conversion itself given: None stays None, and
      a present value's text is handed to the conversion. */
  function ToFloat(v: Option<string>, toFloat: string -> Option<real>): (r: Option<real>)
    ensures v.None? ==> r.None?
    ensures v.Some? ==> r == toFloat(v.value)
  {
    if v.None? then None else toFloat(v.value)
  }

  /** `_to_int(value)` with the conversion itself given: None stays None, and
      a present value's text is handed to the conversion. */
  function ToInt(v: Option<string>, toInt: string -> Option<int>): (r: Option<int>)
    ensures v.None? ==> r.None?
    ensures v.Some? ==> r == toInt(v.value)
  {
    if v.None? then None else toInt(v.value)
  }

  /** The `WineDatasetMatch(...)` built from the winning row of a search for
      `query`. Each field reads its key pair with first-non-empty fallback. */
  function BuildMatch(row: Row, query: string,
                      toFloat: string -> Option<real>, toInt: string -> Option<int>): (m: WineDatasetMatch)
    // wine_name: the row's own name, else its `name`, else the query text
    ensures Get(row, "wine_name") != "" ==> m.wineName == row["wine_name"]
    ensures Get(row, "wine_name") == "" && Get(row, "name") != "" ==> m.wineName == row["name"]
    ensures Get(row, "wine_name") == "" && Get(row, "name") == "" ==> m.wineName == query
    // winery, region, grape: first non-empty of the pair, else the second key's value
    ensures Get(row, "winery_name") != "" ==> m.winery == Some(row["winery_name"])
    ensures Get(row, "winery_name") == "" ==> m.winery == Lookup(row, "winery")
    ensures Get(row, "region_1") != "" ==> m.region == Some(row["region_1"])
    ensures Get(row, "region_1") == "" ==> m.region == Lookup(row, "region")
    ensures Get(row, "grapes") != "" ==> m.grape == Some(row["grapes"])
    ensures Get(row, "grapes") == "" ==> m.grape == Lookup(row, "grape")
    // country: copied as is, None when absent
    ensures m.country == Lookup(row, "country")
    // ratings: the text of the first non-empty key of the pair is converted
    ensures Get(row, "rating") != "" ==> m.avgRating == toFloat(row["rating"])
    ensures Get(row, "rating") == "" && "average_rating" in row ==> m.avgRating == toFloat(row["average_rating"])
    ensures Get(row, "rating") == "" && "average_rating" !in row ==> m.avgRating.None?
    ensures Get(row, "num_reviews") != "" ==> m.numRatings == toInt(row["num_reviews"])
    ensures Get(row, "num_reviews") == "" && "reviews" in row ==> m.numRatings == toInt(row["reviews"])
    ensures Get(row, "num_reviews") == "" && "reviews" !in row ==> m.numRatings.None?
  {
    WineDatasetMatch(
      wineName := FirstOr(row, "wine_name", "name", query),
      winery := FirstOf(row, "winery_name", "winery"),
      country := Lookup(row, "country"),
      region := FirstOf(row, "region_1", "region"),
      grape := FirstOf(row, "grapes", "grape"),
      avgRating := ToFloat(FirstOf(row, "rating", "average_rating"), toFloat),
      numRatings := ToInt(FirstOf(row, "num_reviews", "reviews"), toInt)
    )
  }

  // ---------------------------------------------------------------------------
  // to_response_payload

  /** The JSON values a payload entry can hold. */
  datatype Json = Null | Str(s: string) | Float(x: real) | Int(n: int)

  const PayloadKeys: set<string> :=
    {"wine_name", "winery", "country", "region", "grape", "avg_rating", "num_ratings"}

  function StrOrNull(v: Option<string>): Json {
    match v
    case None => Null
    case Some(s) => Str(s)
  }

  function FloatOrNull(v: Option<real>): Json {
    match v
    case None => Null
    case Some(x) => Float(x)
  }

  function IntOrNull(v: Option<int>): Json {
    match v
    case None => Null
    case Some(n) => Int(n)
  }

  /** Reads back an optional string; None if the value has another type. */
  function AsOptStr(j: Json): Option<Option<string>> {
    match j
    case Null => Some(None)
    case Str(s) => Some(Some(s))
    case _ => None
  }

  function AsOptFloat(j: Json): Option<Option<real>> {
    match j
    case Null => Some(None)
    case Float(x) => Some(Some(x))
    case _ => None
  }

  function AsOptInt(j: Json): Option<Option<int>> {
    match j
    case Null => Some(None)
    case Int(n) => Some(Some(n))
    case _ => None
  }

  /** Reads a payload back into a match: the partner of `ToResponsePayload`.
      None unless the keys are exactly the seven payload keys and each value
      has its field's type. */
  function FromPayload(p: map<string, Json>): Option<WineDatasetMatch> {
    if p.Keys != PayloadKeys then None
    else
      match (p["wine_name"], AsOptStr(p["winery"]), AsOptStr(p["country"]), AsOptStr(p["region"]),
             AsOptStr(p["grape"]), AsOptFloat(p["avg_rating"]), AsOptInt(p["num_ratings"]))
      case (Str(n), Some(w), Some(c), Some(r), Some(g), Some(a), Some(k)) =>
        Some(WineDatasetMatch(n, w, c, r, g, a, k))
      case _ => None
  }

  /** `to_response_payload()`: one entry per field, under the snake_case key,
      with absent values as JSON null. */
  function ToResponsePayload(m: WineDatasetMatch): (p: map<string, Json>)
    ensures p.Keys == PayloadKeys
    ensures p["wine_name"] == Str(m.wineName)
    ensures p["country"].Null? <==> m.country.None?
    ensures p["avg_rating"].Null? <==> m.avgRating.None?
    ensures p["num_ratings"].Null? <==> m.numRatings.None?
    ensures FromPayload(p) == Some(m)
  {
    map[
      "wine_name" := Str(m.wineName),
      "winery" := StrOrNull(m.winery),
      "country" := StrOrNull(m.country),
      "region" := StrOrNull(m.region),
      "grape" := StrOrNull(m.grape),
      "avg_rating" := FloatOrNull(m.avgRating),
      "num_ratings" := IntOrNull(m.numRatings)
    ]
  }

  /** Two matches with the same payload are the same match. */
  lemma PayloadInjective(m1: WineDatasetMatch, m2: WineDatasetMatch)
    requires ToResponsePayload(m1) == ToResponsePayload(m2)
    ensures m1 == m2
  {
    assert Some(m1) == FromPayload(ToResponsePayload(m1));
  }
}
