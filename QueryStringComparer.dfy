/** `HttpQueryStringComparer`: the query-string half of matching an actual request
    against an expected one. Both strings are normalised (lower-case `%xx` escapes
    upper-cased, trailing `&` removed) and parsed into key to values maps whose
    keys compare ignoring case; the comparison passes when the maps agree. Query
    parsing (which also URL-decodes) is an outside collaborator and is passed in
    as `parse`. */
module QueryStringComparer {
  import opened Text
  import opened Models

  /** What query parsing yields: each key with its values in order. */
  type QueryItems = map<string, seq<string>>

  /** The characters of the class `[0-9a-f]`. */
  predicate IsLowerHex(c: char) {
    '0' <= c <= '9' || 'a' <= c <= 'f'
  }

  /** An occurrence of the pattern `%[0-9a-f][0-9a-f]` starting at `i`. */
  predicate EscapeAt(s: string, i: int) {
    0 <= i && i + 2 < |s| && s[i] == '%' && IsLowerHex(s[i + 1]) && IsLowerHex(s[i + 2])
  }

  /** Position `k` is one of the two hex digits of an occurrence. */
  predicate InEscape(s: string, k: int) {
    EscapeAt(s, k - 1) || EscapeAt(s, k - 2)
  }

  /** A left-to-right replacement of every occurrence by its upper-cased text. */
  function UpperCaseEscapes(s: string): (r: string)
    ensures |r| == |s|
    decreases |s|
  {
    if EscapeAt(s, 0) then [s[0], UpperChar(s[1]), UpperChar(s[2])] + UpperCaseEscapes(s[3..])
    else if s == [] then []
    else [s[0]] + UpperCaseEscapes(s[1..])
  }

  /** `NormaliseUrlEncodingAndTrimTrailingAmpersand`; null stays null. */
  function Normalise(query: Option<string>): (r: Option<string>)
    ensures r.None? <==> query.None?
  {
    if query.None? then None else Some(TrimEnd(UpperCaseEscapes(query.value), '&'))
  }

  lemma EscapeAtShift(s: string, j: nat, i: int)
    requires j <= |s|
    ensures i >= 0 ==> (EscapeAt(s[j..], i) <==> EscapeAt(s, i + j))
    ensures i < 0 ==> !EscapeAt(s[j..], i)
  {
  }

  /** The replacement, position by position: a digit of an occurrence is
      upper-cased, every other character is kept. */
  lemma {:induction false} UpperCaseEscapesAt(s: string, k: nat)
    requires k < |s|
    ensures UpperCaseEscapes(s)[k] == if InEscape(s, k) then UpperChar(s[k]) else s[k]
    decreases |s|
  {
    var r := UpperCaseEscapes(s);
    if EscapeAt(s, 0) {
      if k >= 3 {
        UpperCaseEscapesAt(s[3..], k - 3);
        EscapeAtShift(s, 3, k - 4);
        EscapeAtShift(s, 3, k - 5);
        assert r[k] == UpperCaseEscapes(s[3..])[k - 3];
        assert !EscapeAt(s, 1) && !EscapeAt(s, 2);
      }
    } else if k >= 1 {
      UpperCaseEscapesAt(s[1..], k - 1);
      EscapeAtShift(s, 1, k - 2);
      EscapeAtShift(s, 1, k - 3);
      assert r[k] == UpperCaseEscapes(s[1..])[k - 1];
    }
  }

  /** No occurrence has a lower-case letter among its digits. */
  ghost predicate EscapesUpper(t: string) {
    forall j :: EscapeAt(t, j) ==> !IsAsciiLower(t[j + 1]) && !IsAsciiLower(t[j + 2])
  }

  lemma UpperCaseEscapesLeavesNoLowerEscape(s: string)
    ensures EscapesUpper(UpperCaseEscapes(s))
  {
    var r := UpperCaseEscapes(s);
    forall j | EscapeAt(r, j)
      ensures !IsAsciiLower(r[j + 1]) && !IsAsciiLower(r[j + 2])
    {
      UpperCaseEscapesAt(s, j);
      UpperCaseEscapesAt(s, j + 1);
      UpperCaseEscapesAt(s, j + 2);
      assert EscapeAt(s, j);
    }
  }

  lemma EscapesUpperPrefix(t: string, n: nat)
    requires EscapesUpper(t) && n <= |t|
    ensures EscapesUpper(t[..n])
  {
    forall j | EscapeAt(t[..n], j)
      ensures !IsAsciiLower(t[..n][j + 1]) && !IsAsciiLower(t[..n][j + 2])
    {
      assert EscapeAt(t, j);
    }
  }

  /** A string whose occurrences are already upper-case is left unchanged. */
  lemma UpperCaseEscapesFixpoint(t: string)
    requires EscapesUpper(t)
    ensures UpperCaseEscapes(t) == t
  {
    forall k | 0 <= k < |t|
      ensures UpperCaseEscapes(t)[k] == t[k]
    {
      UpperCaseEscapesAt(t, k);
    }
  }

  /** Normalising twice is normalising once. */
  lemma NormaliseIdempotent(query: Option<string>)
    ensures Normalise(Normalise(query)) == Normalise(query)
  {
    if query.Some? {
      var r := UpperCaseEscapes(query.value);
      var t := TrimEnd(r, '&');
      UpperCaseEscapesLeavesNoLowerEscape(query.value);
      EscapesUpperPrefix(r, |t|);
      UpperCaseEscapesFixpoint(t);
    }
  }

  /** What query parsing guarantees: its dictionary compares keys ignoring case,
      so no two of its keys are equal ignoring case. */
  predicate KeysDistinctIgnoringCase(items: QueryItems) {
    forall k1, k2 :: k1 in items && k2 in items && EqualsIgnoreCase(k1, k2) ==> k1 == k2
  }

  /** The expected key `key` with values `values` is not in the actual items
      (keys compared ignoring case) or is there with other values. */
  predicate KeyMismatch(key: string, values: seq<string>, actual: QueryItems) {
    (forall k :: k in actual ==> !EqualsIgnoreCase(k, key)) ||
    (exists k :: k in actual && EqualsIgnoreCase(k, key) && actual[k] != values)
  }

  /** Some expected key is missing from the actual items or has other values:
      what the early returns of the loop over the expected items detect. */
  predicate ItemsMismatch(expected: QueryItems, actual: QueryItems) {
    exists key :: key in expected && KeyMismatch(key, expected[key], actual)
  }

  /** `Compare`: at most one failure is recorded, always a diff. */
  function Compare(expected: Option<string>, actual: Option<string>, parse: string -> QueryItems)
    : (r: ComparisonResult)
    ensures |r.failures| <= 1
    ensures forall i :: 0 <= i < |r.failures| ==> r.failures[i].Diff?
  {
    if IsNullOrEmpty(expected) && IsNullOrEmpty(actual) then
      ComparisonResult("has no query strings", [])
    else
      var normalisedExpected := Normalise(expected);
      var normalisedActual := Normalise(actual);
      var summary := "has query " + (if normalisedExpected.Some? then normalisedExpected.value else "null");
      if expected.None? || actual.None? then
        ComparisonResult(summary, [Diff(expected, actual)])
      else
        var expectedItems := parse(normalisedExpected.value);
        var actualItems := parse(normalisedActual.value);
        if |expectedItems| != |actualItems| || ItemsMismatch(expectedItems, actualItems) then
          ComparisonResult(summary, [Diff(normalisedExpected, normalisedActual)])
        else
          ComparisonResult(summary, [])
  }

  /** The items with their keys in one case: what two dictionaries that compare
      keys ignoring case hold alike when they are equal. */
  function FoldedItems(items: QueryItems): set<(string, seq<string>)> {
    set k | k in items :: (Upper(k), items[k])
  }

  /** The keys in one case. */
  function FoldedKeys(items: QueryItems): set<string> {
    set k | k in items :: Upper(k)
  }

  /** Keys that are distinct ignoring case stay as many once folded. */
  lemma {:induction false} FoldedKeysCount(keys: set<string>)
    requires forall k1, k2 :: k1 in keys && k2 in keys && EqualsIgnoreCase(k1, k2) ==> k1 == k2
    ensures |set k | k in keys :: Upper(k)| == |keys|
    decreases keys
  {
    var image := set k | k in keys :: Upper(k);
    if keys == {} {
      assert image == {};
    } else {
      var k :| k in keys;
      var rest := keys - {k};
      FoldedKeysCount(rest);
      var restImage := set x | x in rest :: Upper(x);
      assert image == restImage + {Upper(k)};
      assert Upper(k) !in restImage;
    }
  }

  /** Two sets of as many elements, one inside the other, are equal. */
  lemma SubsetSameCount<T>(a: set<T>, b: set<T>)
    requires a <= b && |a| == |b|
    ensures a == b
  {
    assert a + b == b;
    assert a * b == a;
    assert |b - a| == 0;
    assert b - a == {};
  }

  /** The key-count check plus the per-key check pass exactly when the two
      dictionaries hold the same items up to the case of their keys. */
  lemma NoMismatchIffFoldedEqual(expected: QueryItems, actual: QueryItems)
    requires KeysDistinctIgnoringCase(expected) && KeysDistinctIgnoringCase(actual)
    ensures (|expected| == |actual| && !ItemsMismatch(expected, actual)) <==>
      FoldedItems(expected) == FoldedItems(actual)
  {
    FoldedKeysCount(expected.Keys);
    FoldedKeysCount(actual.Keys);
    assert FoldedKeys(expected) == set k | k in expected.Keys :: Upper(k);
    assert FoldedKeys(actual) == set k | k in actual.Keys :: Upper(k);
    if |expected| == |actual| && !ItemsMismatch(expected, actual) {
      NoMismatchFoldedEqual(expected, actual);
    }
    if FoldedItems(expected) == FoldedItems(actual) {
      FoldedEqualNoMismatch(expected, actual);
    }
  }

  lemma NoMismatchFoldedEqual(expected: QueryItems, actual: QueryItems)
    requires |FoldedKeys(expected)| == |expected| && |FoldedKeys(actual)| == |actual|
    requires |expected| == |actual| && !ItemsMismatch(expected, actual)
    ensures FoldedItems(expected) == FoldedItems(actual)
  {
    forall u | u in FoldedKeys(expected)
      ensures u in FoldedKeys(actual)
    {
      var key :| key in expected && u == Upper(key);
      assert !KeyMismatch(key, expected[key], actual);
      var k :| k in actual && EqualsIgnoreCase(k, key);
    }
    SubsetSameCount(FoldedKeys(expected), FoldedKeys(actual));
    forall p | p in FoldedItems(expected)
      ensures p in FoldedItems(actual)
    {
      var key :| key in expected && p == (Upper(key), expected[key]);
      assert !KeyMismatch(key, expected[key], actual);
      var k :| k in actual && EqualsIgnoreCase(k, key);
      assert p == (Upper(k), actual[k]);
    }
    forall p | p in FoldedItems(actual)
      ensures p in FoldedItems(expected)
    {
      var k :| k in actual && p == (Upper(k), actual[k]);
      assert Upper(k) in FoldedKeys(expected);
      var key :| key in expected && Upper(key) == Upper(k);
      assert !KeyMismatch(key, expected[key], actual);
      assert EqualsIgnoreCase(k, key);
      assert p == (Upper(key), expected[key]);
    }
  }

  lemma FoldedEqualNoMismatch(expected: QueryItems, actual: QueryItems)
    requires |FoldedKeys(expected)| == |expected| && |FoldedKeys(actual)| == |actual|
    requires KeysDistinctIgnoringCase(actual)
    requires FoldedItems(expected) == FoldedItems(actual)
    ensures |expected| == |actual| && !ItemsMismatch(expected, actual)
  {
    forall u | u in FoldedKeys(expected)
      ensures u in FoldedKeys(actual)
    {
      var key :| key in expected && u == Upper(key);
      assert (Upper(key), expected[key]) in FoldedItems(actual);
      var k :| k in actual && (Upper(key), expected[key]) == (Upper(k), actual[k]);
    }
    forall u | u in FoldedKeys(actual)
      ensures u in FoldedKeys(expected)
    {
      var k :| k in actual && u == Upper(k);
      assert (Upper(k), actual[k]) in FoldedItems(expected);
      var key :| key in expected && (Upper(k), actual[k]) == (Upper(key), expected[key]);
    }
    assert FoldedKeys(expected) == FoldedKeys(actual);
    forall key | key in expected
      ensures !KeyMismatch(key, expected[key], actual)
    {
      assert (Upper(key), expected[key]) in FoldedItems(actual);
      var k :| k in actual && (Upper(key), expected[key]) == (Upper(k), actual[k]);
      forall k2 | k2 in actual && EqualsIgnoreCase(k2, key)
        ensures actual[k2] == expected[key]
      {
        assert EqualsIgnoreCase(k2, k);
      }
    }
  }

  /** Both sides null-or-empty: a pass labelled "has no query strings". */
  lemma CompareNoQueryStrings(expected: Option<string>, actual: Option<string>, parse: string -> QueryItems)
    requires IsNullOrEmpty(expected) && IsNullOrEmpty(actual)
    ensures Compare(expected, actual, parse) == ComparisonResult("has no query strings", [])
  {
  }

  /** Exactly one side null, the other not empty: a diff of the raw strings. */
  lemma CompareOneNull(expected: Option<string>, actual: Option<string>, parse: string -> QueryItems)
    requires (expected.None? && !IsNullOrEmpty(actual)) || (!IsNullOrEmpty(expected) && actual.None?)
    ensures Compare(expected, actual, parse).failures == [Diff(expected, actual)]
  {
  }

  /** The verdict: a pass exactly when both sides are null-or-empty, or both are
      present and parse to the same items up to the case of their keys. */
  lemma CompareVerdict(expected: Option<string>, actual: Option<string>, parse: string -> QueryItems)
    requires expected.Some? && actual.Some? ==>
      KeysDistinctIgnoringCase(parse(Normalise(expected).value)) &&
      KeysDistinctIgnoringCase(parse(Normalise(actual).value))
    ensures !Compare(expected, actual, parse).HasFailure() <==>
      (IsNullOrEmpty(expected) && IsNullOrEmpty(actual)) ||
      (expected.Some? && actual.Some? &&
       FoldedItems(parse(Normalise(expected).value)) == FoldedItems(parse(Normalise(actual).value)))
  {
    if expected.Some? && actual.Some? {
      NoMismatchIffFoldedEqual(parse(Normalise(expected).value), parse(Normalise(actual).value));
    }
  }

  /** A key the actual query spells in another case still matches: `a=1` against
      `A=1` passes. */
  lemma CompareKeyCaseIgnored(expected: string, actual: string, parse: string -> QueryItems)
    requires parse(Normalise(Some(expected)).value) == map["a" := ["1"]]
    requires parse(Normalise(Some(actual)).value) == map["A" := ["1"]]
    ensures !Compare(Some(expected), Some(actual), parse).HasFailure()
  {
  }

  /** A failure of two present queries is a diff of the normalised strings, and
      the label names the normalised expected query. */
  lemma CompareFailureNormalised(expected: string, actual: string, parse: string -> QueryItems)
    requires expected != [] || actual != []
    ensures var r := Compare(Some(expected), Some(actual), parse);
      r.summary == "has query " + Normalise(Some(expected)).value &&
      (r.HasFailure() ==> r.failures == [Diff(Normalise(Some(expected)), Normalise(Some(actual)))])
  {
  }

  /** Different numbers of parsed keys always fail. */
  lemma CompareKeyCountDiffers(expected: string, actual: string, parse: string -> QueryItems)
    requires expected != [] || actual != []
    requires |parse(Normalise(Some(expected)).value)| != |parse(Normalise(Some(actual)).value)|
    ensures Compare(Some(expected), Some(actual), parse).HasFailure()
  {
  }

  /** An expected key that is missing (ignoring case), or whose values differ (in
      content or in order), always fails. */
  lemma CompareKeyMismatch(expected: string, actual: string, parse: string -> QueryItems, key: string)
    requires expected != [] || actual != []
    requires key in parse(Normalise(Some(expected)).value)
    requires var a := parse(Normalise(Some(actual)).value);
      (forall k :: k in a ==> !EqualsIgnoreCase(k, key)) ||
      (exists k :: k in a && EqualsIgnoreCase(k, key) && a[k] != parse(Normalise(Some(expected)).value)[key])
    ensures Compare(Some(expected), Some(actual), parse).HasFailure()
  {
    var e := parse(Normalise(Some(expected)).value);
    assert KeyMismatch(key, e[key], parse(Normalise(Some(actual)).value));
    assert ItemsMismatch(e, parse(Normalise(Some(actual)).value));
  }

  /** The verdict depends on the parsed items only: queries that parse alike (for
      example the same keys in another order) get the same verdict. */
  lemma CompareDependsOnItems(e1: string, a1: string, e2: string, a2: string, parse: string -> QueryItems)
    requires (e1 != [] || a1 != []) && (e2 != [] || a2 != [])
    requires parse(Normalise(Some(e1)).value) == parse(Normalise(Some(e2)).value)
    requires parse(Normalise(Some(a1)).value) == parse(Normalise(Some(a2)).value)
    ensures Compare(Some(e1), Some(a1), parse).HasFailure() == Compare(Some(e2), Some(a2), parse).HasFailure()
  {
  }
}
