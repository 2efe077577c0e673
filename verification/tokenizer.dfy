/**
  The catalog tokenizer of app/xwines.py (`_tokenize`): the text is lower-cased
  and split into the maximal runs of the characters `[a-z0-9]`; every other
  character is a separator. Lower-casing is modelled for ASCII only.
 */
module Tokenizer {

  /** A character the pattern `[a-z0-9]` accepts. */
  predicate IsTokenChar(c: char) {
    ('a' <= c <= 'z') || ('0' <= c <= '9')
  }

  predicate IsUpper(c: char) {
    'A' <= c <= 'Z'
  }

  /** A well-formed token: non-empty and made only of token characters. */
  predicate IsToken(t: string) {
    |t| > 0 && forall i :: 0 <= i < |t| ==> IsTokenChar(t[i])
  }

  /** ASCII lower-casing of one character. */
  function ToLower(c: char): (r: char)
    ensures !IsUpper(r)
    ensures !IsUpper(c) ==> r == c
    ensures IsUpper(c) ==> r as int == c as int + 32
  {
    if IsUpper(c) then (c as int + 32) as char else c
  }

  /** ASCII lower-casing of a string, character by character. */
  function Lower(s: string): (r: string)
    ensures |r| == |s|
    ensures forall i :: 0 <= i < |s| ==> r[i] == ToLower(s[i])
  {
    seq(|s|, i requires 0 <= i < |s| => ToLower(s[i]))
  }

  /** Length of the run of token characters at the start of `s`. */
  function RunLength(s: string): (n: nat)
    ensures n <= |s|
    ensures forall i :: 0 <= i < n ==> IsTokenChar(s[i])
    ensures n == |s| || !IsTokenChar(s[n])
  {
    if |s| == 0 || !IsTokenChar(s[0]) then 0 else 1 + RunLength(s[1..])
  }

  /** The maximal runs of token characters of `s`, left to right. */
  function Runs(s: string): (ts: seq<string>)
    ensures forall t :: t in ts ==> IsToken(t)
    decreases |s|
  {
    if |s| == 0 then []
    else if !IsTokenChar(s[0]) then Runs(s[1..])
    else
      var n := RunLength(s);
      [s[..n]] + Runs(s[n..])
  }

  /** `re.findall(r"[a-z0-9]+", text.lower())` */
  function Tokenize(text: string): (ts: seq<string>)
    ensures forall t :: t in ts ==> IsToken(t)
  {
    Runs(Lower(text))
  }

  /** `set(_tokenize(text))`, the token set the matcher compares. */
  function TokenSet(text: string): set<string> {
    set t | t in Tokenize(text)
  }

  /** `" ".join(ts)` */
  function Join(ts: seq<string>): string {
    if |ts| == 0 then ""
    else if |ts| == 1 then ts[0]
    else ts[0] + " " + Join(ts[1..])
  }

  /** The tokens written one after another, with nothing between them. */
  function Concat(ts: seq<string>): string {
    if |ts| == 0 then "" else ts[0] + Concat(ts[1..])
  }

  /** The token characters of `s`, in order. */
  function Filter(s: string): (r: string)
    ensures |r| <= |s|
  {
    if |s| == 0 then ""
    else if IsTokenChar(s[0]) then [s[0]] + Filter(s[1..])
    else Filter(s[1..])
  }

  // ---------------------------------------------------------------------------
  // Maximality: a separator splits the runs, and a token is one run

  /** A run of length `m` that ends at a separator or at the end of the text
      is the run `RunLength` measures. */
  lemma RunLengthIs(s: string, m: nat)
    requires m <= |s|
    requires forall i :: 0 <= i < m ==> IsTokenChar(s[i])
    requires m == |s| || !IsTokenChar(s[m])
    ensures RunLength(s) == m
  {
  }

  /** A well-formed token is a single run. */
  lemma RunsOfToken(t: string)
    requires IsToken(t)
    ensures Runs(t) == [t]
  {
    RunLengthIs(t, |t|);
    assert t[..|t|] == t;
    assert t[|t|..] == "";
  }

  /** A non-token character splits a text into two parts that are split into
      runs independently: no run crosses a separator. */
  lemma {:induction false} RunsSplit(a: string, c: char, b: string)
    requires !IsTokenChar(c)
    ensures Runs(a + [c] + b) == Runs(a) + Runs(b)
    decreases |a|
  {
    var s := a + [c] + b;
    if |a| == 0 {
      assert s == [c] + b;
      assert s[1..] == b;
    } else if !IsTokenChar(a[0]) {
      assert s[0] == a[0];
      assert s[1..] == a[1..] + [c] + b;
      RunsSplit(a[1..], c, b);
    } else {
      var m := RunLength(a);
      assert forall i :: 0 <= i < |a| ==> s[i] == a[i];
      assert s[|a|] == c;
      RunLengthIs(s, m);
      assert s[..m] == a[..m];
      assert s[m..] == a[m..] + [c] + b;
      RunsSplit(a[m..], c, b);
      assert Runs(a) == [a[..m]] + Runs(a[m..]);
      assert Runs(s) == [a[..m]] + Runs(a[m..] + [c] + b);
    }
  }

  // ---------------------------------------------------------------------------
  // Case

  /** Two texts that agree up to ASCII case tokenize identically. */
  lemma CaseInsensitive(a: string, b: string)
    requires |a| == |b|
    requires forall i :: 0 <= i < |a| ==> ToLower(a[i]) == ToLower(b[i])
    ensures Tokenize(a) == Tokenize(b)
  {
    assert Lower(a) == Lower(b);
  }

  /** Lower-casing before tokenizing changes nothing. */
  lemma TokenizeIgnoresCase(text: string)
    ensures Tokenize(Lower(text)) == Tokenize(text)
  {
    CaseInsensitive(Lower(text), text);
  }

  // ---------------------------------------------------------------------------
  // Empty results

  lemma {:induction false} RunsEmptyIff(s: string)
    ensures Runs(s) == [] <==> forall i :: 0 <= i < |s| ==> !IsTokenChar(s[i])
    decreases |s|
  {
    if |s| > 0 {
      RunsEmptyIff(s[1..]);
      if !IsTokenChar(s[0]) {
        assert forall i :: 1 <= i < |s| ==> s[i] == s[1..][i - 1];
      }
    }
  }

  /** A text has no tokens exactly when none of its characters lower-cases to
      a letter `a`-`z` or a digit (whitespace or punctuation only). */
  lemma NoTokensIff(text: string)
    ensures Tokenize(text) == [] <==> forall i :: 0 <= i < |text| ==> !IsTokenChar(ToLower(text[i]))
    ensures TokenSet(text) == {} <==> Tokenize(text) == []
  {
    RunsEmptyIff(Lower(text));
    if Tokenize(text) != [] {
      assert Tokenize(text)[0] in TokenSet(text);
    }
  }

  // ---------------------------------------------------------------------------
  // Tokens are exactly the token characters

  lemma {:induction false} FilterAppend(a: string, b: string)
    ensures Filter(a + b) == Filter(a) + Filter(b)
    decreases |a|
  {
    if |a| > 0 {
      assert (a + b)[1..] == a[1..] + b;
      FilterAppend(a[1..], b);
    } else {
      assert a + b == b;
    }
  }

  lemma {:induction false} FilterOfTokenChars(a: string)
    requires forall i :: 0 <= i < |a| ==> IsTokenChar(a[i])
    ensures Filter(a) == a
    decreases |a|
  {
    if |a| > 0 {
      FilterOfTokenChars(a[1..]);
      assert a == [a[0]] + a[1..];
    }
  }

  /** Concatenating the runs gives back every token character of the text, in
      order: no token character is lost and nothing else gets in. */
  lemma {:induction false} RunsCoverFilter(s: string)
    ensures Concat(Runs(s)) == Filter(s)
    decreases |s|
  {
    if |s| > 0 {
      if !IsTokenChar(s[0]) {
        RunsCoverFilter(s[1..]);
      } else {
        var n := RunLength(s);
        RunsCoverFilter(s[n..]);
        assert s == s[..n] + s[n..];
        FilterAppend(s[..n], s[n..]);
        FilterOfTokenChars(s[..n]);
        var ts := [s[..n]] + Runs(s[n..]);
        assert ts[1..] == Runs(s[n..]);
      }
    }
  }

  lemma TokensCoverText(text: string)
    ensures Concat(Tokenize(text)) == Filter(Lower(text))
  {
    RunsCoverFilter(Lower(text));
  }

  // ---------------------------------------------------------------------------
  // Re-tokenizing joined tokens

  /** Every character of a space-joined token list is a token character or a
      space. */
  lemma {:induction false} JoinChars(ts: seq<string>)
    requires forall t :: t in ts ==> IsToken(t)
    ensures forall i :: 0 <= i < |Join(ts)| ==> IsTokenChar(Join(ts)[i]) || Join(ts)[i] == ' '
    decreases |ts|
  {
    if |ts| == 1 {
      assert ts[0] in ts;
    } else if |ts| > 1 {
      assert ts[0] in ts;
      JoinChars(ts[1..]);
      var j := Join(ts);
      var rest := Join(ts[1..]);
      assert j == ts[0] + " " + rest;
      forall i | 0 <= i < |j|
        ensures IsTokenChar(j[i]) || j[i] == ' '
      {
        if i < |ts[0]| {
          assert j[i] == ts[0][i];
        } else if i > |ts[0]| {
          assert j[i] == rest[i - |ts[0]| - 1];
        }
      }
    }
  }

  lemma LowerNoUpper(s: string)
    requires forall i :: 0 <= i < |s| ==> !IsUpper(s[i])
    ensures Lower(s) == s
  {
  }

  /** The runs of a space-joined token list are the tokens themselves. */
  lemma {:induction false} RunsOfJoin(ts: seq<string>)
    requires forall t :: t in ts ==> IsToken(t)
    ensures Runs(Join(ts)) == ts
    decreases |ts|
  {
    if |ts| == 1 {
      var t := ts[0];
      assert t in ts;
      assert RunLength(t) == |t|;
      assert t[..|t|] == t && t[|t|..] == "";
    } else if |ts| > 1 {
      var t := ts[0];
      assert t in ts;
      var rest := Join(ts[1..]);
      var s := Join(ts);
      assert s == t + " " + rest;
      assert s[0] == t[0];
      var n := RunLength(s);
      assert forall i :: 0 <= i < |t| ==> s[i] == t[i];
      assert s[|t|] == ' ';
      assert n == |t|;
      assert s[..n] == t;
      assert s[n..] == " " + rest;
      assert (" " + rest)[1..] == rest;
      RunsOfJoin(ts[1..]);
      assert ts == [t] + ts[1..];
    }
  }

  /** Joining the tokens with spaces and tokenizing again yields the same
      token list. */
  lemma RetokenizeJoin(text: string)
    ensures Tokenize(Join(Tokenize(text))) == Tokenize(text)
  {
    var ts := Tokenize(text);
    JoinChars(ts);
    LowerNoUpper(Join(ts));
    RunsOfJoin(ts);
  }
}
