/**
  Catalog rows of app/xwines.py: one `dict[str, str]` per catalog entry, read
  with `row.get(key)` and combined with Python's `or`.
 */
module Rows {
  import opened Wrappers

  type Row = map<string, string>

  /** `row.get(key)`: None when the key is missing. */
  function Lookup(row: Row, key: string): Option<string> {
    if key in row then Some(row[key]) else None
  }

  /** `row.get(key) or ""`: a missing key and an empty value both read "". */
  function Get(row: Row, key: string): string {
    if key in row then row[key] else ""
  }

  /** Python truthiness of an optional string: neither None nor "". */
  predicate Truthy(v: Option<string>) {
    v.Some? && v.value != ""
  }

  /** Python's `a or b` on optional strings: `a` if it is truthy, else `b`
      (which may itself be None or ""). */
  function Or(a: Option<string>, b: Option<string>): (r: Option<string>)
    ensures Truthy(r) <==> Truthy(a) || Truthy(b)
    ensures Truthy(a) ==> r == a
    ensures !Truthy(a) ==> r == b
  {
    if Truthy(a) then a else b
  }

  lemma LookupTruthy(row: Row, key: string)
    ensures Truthy(Lookup(row, key)) <==> Get(row, key) != ""
    ensures Truthy(Lookup(row, key)) ==> Lookup(row, key) == Some(Get(row, key))
  {
  }

  /** `row.get(k1) or row.get(k2)`: the first key whose value is non-empty;
      failing that, whatever `row.get(k2)` gives (None or ""). */
  function FirstOf(row: Row, k1: string, k2: string): (r: Option<string>)
    ensures Get(row, k1) != "" ==> r == Some(row[k1])
    ensures Get(row, k1) == "" && Get(row, k2) != "" ==> r == Some(row[k2])
    ensures Get(row, k1) == "" && Get(row, k2) == "" ==> !Truthy(r)
    ensures Get(row, k1) == "" ==> (r.None? <==> k2 !in row)
  {
    Or(Lookup(row, k1), Lookup(row, k2))
  }

  /** `row.get(k1) or row.get(k2) or fallback` as a plain string. */
  function FirstOr(row: Row, k1: string, k2: string, fallback: string): (r: string)
    ensures Get(row, k1) != "" ==> r == row[k1]
    ensures Get(row, k1) == "" && Get(row, k2) != "" ==> r == row[k2]
    ensures Get(row, k1) == "" && Get(row, k2) == "" ==> r == fallback
  {
    Or(FirstOf(row, k1, k2), Some(fallback)).value
  }
}
