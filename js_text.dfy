/** The JavaScript string built-ins the user table component relies on:
    `trim`, `toLowerCase` (over ASCII), `indexOf`, `replace` with a
    one-character string pattern, and the decimal text of a whole number
    (`num + ''`). */
module JsText {

  /** WhiteSpace and LineTerminator code points of ECMAScript, the ones
      `String.prototype.trim` strips from both ends. */
  predicate IsWhitespace(c: char) {
    ('\t' <= c <= '\r') || c == ' ' || c == '\U{00A0}' || c == '\U{1680}' ||
    ('\U{2000}' <= c <= '\U{200A}') || c == '\U{2028}' || c == '\U{2029}' ||
    c == '\U{202F}' || c == '\U{205F}' || c == '\U{3000}' || c == '\U{FEFF}'
  }

  predicate IsUpper(c: char) {
    'A' <= c <= 'Z'
  }

  /** Lower-cases one ASCII letter: 'A'..'Z' become 'a'..'z' in order and
      every other character is kept. */
  function LowerChar(c: char): (r: char)
    ensures !IsUpper(r)
    ensures IsUpper(c) ==> 'a' <= r <= 'z' && r as int - 'a' as int == c as int - 'A' as int
    ensures !IsUpper(c) ==> r == c
    ensures IsWhitespace(r) <==> IsWhitespace(c)
  {
    if IsUpper(c) then (c as int + 32) as char else c
  }

  /** `toLowerCase`, restricted to the ASCII letters: same length, every
      upper-case letter replaced by its lower-case counterpart, every other
      character kept. */
  function Lower(s: string): (r: string)
    ensures |r| == |s|
    ensures forall i :: 0 <= i < |r| ==> !IsUpper(r[i])
    ensures forall i :: 0 <= i < |r| && !IsUpper(s[i]) ==> r[i] == s[i]
    ensures forall i :: 0 <= i < |r| && IsUpper(s[i]) ==>
      'a' <= r[i] <= 'z' && r[i] as int - 'a' as int == s[i] as int - 'A' as int
    ensures forall i :: 0 <= i < |r| ==> (IsWhitespace(r[i]) <==> IsWhitespace(s[i]))
  {
    seq(|s|, i requires 0 <= i < |s| => LowerChar(s[i]))
  }

  /** Lower-casing twice is lower-casing once. */
  lemma LowerIdempotent(s: string)
    ensures Lower(Lower(s)) == Lower(s)
  {
    assert forall i :: 0 <= i < |s| ==> LowerChar(LowerChar(s[i])) == LowerChar(s[i]);
  }

  /** The first index at or after `i` whose character is not whitespace, or
      `|s|` when there is none. */
  function SkipWhitespace(s: string, i: nat): (a: nat)
    requires i <= |s|
    decreases |s| - i
    ensures i <= a <= |s|
    ensures forall k :: i <= k < a ==> IsWhitespace(s[k])
    ensures a == |s| || !IsWhitespace(s[a])
  {
    if i < |s| && IsWhitespace(s[i]) then SkipWhitespace(s, i + 1) else i
  }

  /** Walking back from `j`, the end of the last character before `j` that is
      not whitespace, or `a` when `s[a..j]` is all whitespace. */
  function SkipWhitespaceBack(s: string, a: nat, j: nat): (b: nat)
    requires a <= j <= |s|
    decreases j
    ensures a <= b <= j
    ensures forall k :: b <= k < j ==> IsWhitespace(s[k])
    ensures b == a || !IsWhitespace(s[b - 1])
  {
    if a < j && IsWhitespace(s[j - 1]) then SkipWhitespaceBack(s, a, j - 1) else j
  }

  /** Leading whitespace removed; `r` is the suffix of `s` that starts at the
      first non-whitespace character. */
  function TrimStart(s: string): (r: string)
    ensures |r| <= |s| && r == s[|s| - |r|..]
    ensures forall k :: 0 <= k < |s| - |r| ==> IsWhitespace(s[k])
    ensures r == [] || !IsWhitespace(r[0])
  {
    s[SkipWhitespace(s, 0)..]
  }

  /** Trailing whitespace removed; `r` is the prefix of `s` that ends at the
      last non-whitespace character. */
  function TrimEnd(s: string): (r: string)
    ensures |r| <= |s| && r == s[..|r|]
    ensures forall k :: |r| <= k < |s| ==> IsWhitespace(s[k])
    ensures r == [] || !IsWhitespace(r[|r| - 1])
  {
    s[..SkipWhitespaceBack(s, 0, |s|)]
  }

  /** Trimming both ends at once is trimming the start, then the end. */
  lemma TrimIsBothHalves(s: string)
    ensures Trim(s) == TrimEnd(TrimStart(s))
  {
  }

  /** Everything of `s` outside the index range `a..b` is whitespace. */
  predicate WhitespaceOutside(s: string, a: int, b: int) {
    0 <= a <= b <= |s| &&
    (forall k :: 0 <= k < a ==> IsWhitespace(s[k])) &&
    (forall k :: b <= k < |s| ==> IsWhitespace(s[k]))
  }

  /** `String.prototype.trim`: the middle of `s` that is left once the
      whitespace at both ends is cut, and nothing else. */
  function Trim(s: string): (r: string)
    ensures |r| <= |s|
    ensures r == [] || (!IsWhitespace(r[0]) && !IsWhitespace(r[|r| - 1]))
    ensures var a := |s| - |TrimStart(s)|;
            WhitespaceOutside(s, a, a + |r|) && r == s[a..a + |r|]
  {
    var a := SkipWhitespace(s, 0);
    s[a..SkipWhitespaceBack(s, a, |s|)]
  }

  /** Trimming a string whose ends are not whitespace changes nothing. */
  lemma {:induction false} TrimOfTrimmed(s: string)
    requires s == [] || (!IsWhitespace(s[0]) && !IsWhitespace(s[|s| - 1]))
    ensures Trim(s) == s
  {
    assert SkipWhitespace(s, 0) == 0;
    assert SkipWhitespaceBack(s, 0, |s|) == |s|;
  }

  /** `p` occurs in `s` starting at index `j`. */
  predicate OccursAt(s: string, p: string, j: int) {
    0 <= j && j + |p| <= |s| && s[j..j + |p|] == p
  }

  /** The search of `indexOf`, started at `from`: the first index at or after
      `from` where `p` occurs, or -1 when there is none. */
  function IndexOfFrom(s: string, p: string, from: nat): (r: int)
    requires from <= |s|
    decreases |s| - from
    ensures r == -1 || (from <= r && OccursAt(s, p, r))
    ensures forall j :: from <= j && (r == -1 || j < r) ==> !OccursAt(s, p, j)
  {
    if from + |p| > |s| then -1
    else if s[from..from + |p|] == p then from
    else IndexOfFrom(s, p, from + 1)
  }

  /** `s.indexOf(p)`: the first index where `p` occurs, or -1. */
  function IndexOf(s: string, p: string): (r: int)
    ensures r == -1 || OccursAt(s, p, r)
    ensures forall j :: 0 <= j && (r == -1 || j < r) ==> !OccursAt(s, p, j)
  {
    IndexOfFrom(s, p, 0)
  }

  /** `indexOf` finds something exactly when `p` is a contiguous part of `s`. */
  lemma IndexOfFound(s: string, p: string)
    ensures IndexOf(s, p) != -1 <==> exists j :: OccursAt(s, p, j)
  {
    var r := IndexOf(s, p);
    if r != -1 {
      assert OccursAt(s, p, r);
    }
  }

  /** `s.replace(c, '')` with a one-character string pattern: only the FIRST
      occurrence of `c` is removed. Exactly one `c` is dropped when there is
      one. */
  function RemoveFirst(s: string, c: char): (r: string)
    ensures c !in s ==> r == s
    ensures c in s ==> |r| == |s| - 1
  {
    if s == [] then []
    else if s[0] == c then s[1..]
    else [s[0]] + RemoveFirst(s[1..], c)
  }

  /** Removing the first `c` drops exactly one `c` from the multiset of
      characters and keeps every other character, later `c`s included. */
  lemma {:induction false} RemoveFirstMultiset(s: string, c: char)
    ensures multiset(RemoveFirst(s, c)) == multiset(s) - multiset{c}
  {
    if s != [] {
      assert s == [s[0]] + s[1..];
      if s[0] != c {
        RemoveFirstMultiset(s[1..], c);
      }
    }
  }

  /** With `k` the index of the first `c`, the result is `s` with exactly
      index `k` cut out: what comes before `k` is untouched and everything
      after it (later occurrences of `c` included) survives in order. */
  lemma {:induction false} RemoveFirstAt(s: string, c: char, k: nat)
    requires k < |s| && s[k] == c && c !in s[..k]
    ensures RemoveFirst(s, c) == s[..k] + s[k + 1..]
  {
    if k > 0 {
      assert s[0] != c by { assert s[0] == s[..k][0]; }
      assert c !in s[1..][..k - 1] by { assert s[1..][..k - 1] == s[..k][1..]; }
      RemoveFirstAt(s[1..], c, k - 1);
      assert s[..k] == [s[0]] + s[1..][..k - 1];
      assert s[k + 1..] == s[1..][k..];
    }
  }

  /** Thousands separators: only the first comma goes. */
  lemma RemoveFirstCommaExample()
    ensures RemoveFirst("1,234,567", ',') == "1234,567"
  {
    var s := "1,234,567";
    assert s[1..] == ",234,567";
    assert RemoveFirst(s[1..], ',') == "234,567";
  }

  predicate IsDigit(c: char) {
    '0' <= c <= '9'
  }

  predicate IsDigits(s: string) {
    forall i :: 0 <= i < |s| ==> IsDigit(s[i])
  }

  function DigitChar(d: int): char
    requires 0 <= d < 10
  {
    ('0' as int + d) as char
  }

  /** The number a string of decimal digits denotes (the empty string
      denotes 0). */
  function DigitsValue(s: string): nat
    requires IsDigits(s)
  {
    if s == [] then 0
    else DigitsValue(s[..|s| - 1]) * 10 + (s[|s| - 1] as int - '0' as int)
  }

  /** A leading zero does not change the value of a digit string. */
  lemma {:induction false} LeadingZero(s: string)
    requires IsDigits(s)
    ensures IsDigits("0" + s) && DigitsValue("0" + s) == DigitsValue(s)
  {
    if s != [] {
      assert ("0" + s)[..|s|] == "0" + s[..|s| - 1];
      LeadingZero(s[..|s| - 1]);
    }
  }

  function Pow10(k: nat): nat {
    if k == 0 then 1 else 10 * Pow10(k - 1)
  }

  /** `n + ''` for a whole number `n >= 0`: its canonical decimal text, whose
      digits read back as `n`. */
  function NatText(n: nat): (r: string)
    ensures |r| >= 1 && IsDigits(r)
    ensures |r| > 1 ==> r[0] != '0'
    ensures DigitsValue(r) == n
  {
    if n < 10 then [DigitChar(n)]
    else
      var r := NatText(n / 10) + [DigitChar(n % 10)];
      assert r[..|r| - 1] == NatText(n / 10);
      r
  }

  /** A number between 10^(k-1) and 10^k - 1 is written with exactly `k`
      digits. */
  lemma {:induction false} NatTextWidth(n: nat, k: nat)
    requires 1 <= k && (k == 1 || Pow10(k - 1) <= n) && n < Pow10(k)
    ensures |NatText(n)| == k
  {
    if k > 1 {
      assert n >= 10;
      assert n / 10 < Pow10(k - 1);
      assert k - 1 == 1 || Pow10(k - 2) <= n / 10;
      NatTextWidth(n / 10, k - 1);
    }
  }

  /** `num + ''` for a whole number: a minus sign, then the digits of the
      magnitude, when it is negative. */
  function NumberText(n: int): (r: string)
    ensures n >= 0 ==> IsDigits(r) && DigitsValue(r) == n
    ensures |r| >= 1
    ensures n < 0 ==> r[0] == '-' && IsDigits(r[1..]) && DigitsValue(r[1..]) == -n
    ensures |r| > 1 ==> r[0] != '0'
    ensures n < 0 && |r| > 2 ==> r[1] != '0'
  {
    if n < 0 then "-" + NatText(-n) else NatText(n)
  }
}
