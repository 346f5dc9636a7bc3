/** Character and string helpers shared by the mappers, the admin router and the
    failure messages. Upper-casing is ASCII only: the .NET culture rules for
    other letters are not modelled. */
module Text {

  datatype Option<T> = None | Some(value: T)

  /** `String.IsNullOrEmpty` on a nullable string. */
  predicate IsNullOrEmpty(s: Option<string>) {
    s.None? || s.value == ""
  }

  predicate IsAsciiLower(c: char) {
    'a' <= c <= 'z'
  }

  function UpperChar(c: char): (r: char)
    ensures IsAsciiLower(c) ==> r as int == c as int - 32
    ensures !IsAsciiLower(c) ==> r == c
  {
    if IsAsciiLower(c) then (c as int - 32) as char else c
  }

  /** `ToUpper` / `ToUpperInvariant`, restricted to ASCII letters. */
  function Upper(s: string): (r: string)
    ensures |r| == |s|
    ensures forall i :: 0 <= i < |s| ==> r[i] == UpperChar(s[i])
  {
    seq(|s|, i requires 0 <= i < |s| => UpperChar(s[i]))
  }

  lemma UpperCharIdempotent(c: char)
    ensures UpperChar(UpperChar(c)) == UpperChar(c)
  {
  }

  /** Upper-casing twice is upper-casing once. */
  lemma UpperIdempotent(s: string)
    ensures Upper(Upper(s)) == Upper(s)
  {
    forall i | 0 <= i < |s|
      ensures Upper(Upper(s))[i] == Upper(s)[i]
    {
      UpperCharIdempotent(s[i]);
    }
  }

  /** `String.Equals(a, b, StringComparison.OrdinalIgnoreCase)` on ASCII text. */
  predicate EqualsIgnoreCase(a: string, b: string) {
    Upper(a) == Upper(b)
  }

  /** A string and its upper-cased form compare equal ignoring case. */
  lemma EqualsIgnoreCaseUpper(s: string)
    ensures EqualsIgnoreCase(s, Upper(s))
  {
    UpperIdempotent(s);
  }

  function DigitChar(d: nat): (c: char)
    requires d < 10
    ensures '0' <= c <= '9' && c as int - '0' as int == d
  {
    ('0' as int + d) as char
  }

  /** `String.TrimStart(c)`: every leading `c` goes. */
  function TrimStart(s: string, c: char): (r: string)
    ensures |r| <= |s| && r == s[|s| - |r|..]
    ensures r == [] || r[0] != c
    ensures forall k :: 0 <= k < |s| - |r| ==> s[k] == c
  {
    if s != [] && s[0] == c then TrimStart(s[1..], c) else s
  }

  /** `String.TrimEnd(c)`: every trailing `c` goes. */
  function TrimEnd(s: string, c: char): (r: string)
    ensures |r| <= |s| && r == s[..|r|]
    ensures r == [] || r[|r| - 1] != c
    ensures forall k :: |r| <= k < |s| ==> s[k] == c
  {
    if s != [] && s[|s| - 1] == c then TrimEnd(s[..|s| - 1], c) else s
  }

  /** `n` copies of `c`. */
  function Repeat(c: char, n: nat): (r: string)
    ensures |r| == n
    ensures forall k :: 0 <= k < n ==> r[k] == c
  {
    if n == 0 then [] else [c] + Repeat(c, n - 1)
  }

  /** The characters `TrimStart` removes, put back in front, give the input. */
  lemma TrimStartPrefix(s: string, c: char)
    ensures var r := TrimStart(s, c);
      Repeat(c, |s| - |r|) + r == s
  {
    var r := TrimStart(s, c);
    RepeatPrefix(s, c, |s| - |r|);
  }

  /** A string that starts with `m` copies of `c` is those copies and the rest. */
  lemma RepeatPrefix(s: string, c: char, m: nat)
    requires m <= |s|
    requires forall k :: 0 <= k < m ==> s[k] == c
    ensures Repeat(c, m) + s[m..] == s
  {
    assert s[..m] == Repeat(c, m);
    assert s[..m] + s[m..] == s;
  }

  /** `TrimStart` stops at the first character that is not `c`. */
  lemma TrimStartAt(s: string, c: char, n: nat)
    requires n <= |s| && (n == |s| || s[n] != c)
    requires forall k :: 0 <= k < n ==> s[k] == c
    ensures TrimStart(s, c) == s[n..]
  {
    var r := TrimStart(s, c);
    if |s| - |r| < n {
      assert false;
    } else if |s| - |r| > n {
      assert false;
    }
  }

  /** `TrimEnd` stops at the last character that is not `c`. */
  lemma TrimEndAt(s: string, c: char, n: nat)
    requires n <= |s| && (n == 0 || s[n - 1] != c)
    requires forall k :: n <= k < |s| ==> s[k] == c
    ensures TrimEnd(s, c) == s[..n]
  {
    var r := TrimEnd(s, c);
    if |r| < n {
      assert false;
    } else if |r| > n {
      assert false;
    }
  }

  /** `String.Trim(c)`: both ends. */
  function Trim(s: string, c: char): string {
    TrimStart(TrimEnd(s, c), c)
  }

  /** Trimming a text set between two `c` removes just the two, when the text
      neither starts nor ends with `c`. */
  lemma TrimDelimited(e: string, c: char)
    requires e == [] || (e[0] != c && e[|e| - 1] != c)
    ensures Trim([c] + e + [c], c) == e
  {
    var q := [c] + e + [c];
    if e == [] {
      TrimEndAt(q, c, 0);
      TrimStartAt([], c, 0);
    } else {
      assert q[|q| - 2] == e[|e| - 1];
      TrimEndAt(q, c, |q| - 1);
      var te := q[..|q| - 1];
      assert te == [c] + e;
      TrimStartAt(te, c, 1);
      assert te[1..] == e;
    }
  }

  /** When the text ends with one `c`, trimming removes that one as well. */
  lemma TrimDelimitedEndingWith(e: string, c: char)
    requires |e| >= 2 && e[0] != c && e[|e| - 1] == c && e[|e| - 2] != c
    ensures Trim([c] + e + [c], c) == e[..|e| - 1]
  {
    var q := [c] + e + [c];
    assert q[|q| - 3] == e[|e| - 2];
    assert q[|q| - 2] == e[|e| - 1];
    TrimEndAt(q, c, |q| - 2);
    var te := q[..|q| - 2];
    assert te == [c] + e[..|e| - 1];
    TrimStartAt(te, c, 1);
    assert te[1..] == e[..|e| - 1];
  }

  /** Decimal rendering of a count, as `String.Format` writes an `int`. */
  function NatToString(n: nat): (r: string)
    ensures |r| >= 1
    ensures forall i :: 0 <= i < |r| ==> '0' <= r[i] <= '9'
    ensures n < 10 ==> r == [DigitChar(n)]
  {
    if n < 10 then [DigitChar(n)] else NatToString(n / 10) + [DigitChar(n % 10)]
  }

  /** Value of a string of decimal digits; the inverse of `NatToString`. */
  function DigitsValue(s: string): nat
    requires forall i :: 0 <= i < |s| ==> '0' <= s[i] <= '9'
  {
    if s == [] then 0 else 10 * DigitsValue(s[..|s| - 1]) + (s[|s| - 1] as int - '0' as int)
  }

  lemma {:induction false} NatToStringRoundTrip(n: nat)
    ensures DigitsValue(NatToString(n)) == n
  {
    if n >= 10 {
      var r := NatToString(n);
      assert r[..|r| - 1] == NatToString(n / 10);
      NatToStringRoundTrip(n / 10);
    }
  }
}
