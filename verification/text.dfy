/**
 * String helpers for the few Python `str` operations the core uses:
 * `in`, `startswith`/`endswith`, `lower`, `strip`, `split`, `replace`
 * and the code-point order of `<` on strings.
 */
module Text {

  /** `q in s` for strings: q occurs as a contiguous piece of s. */
  predicate IsSubstring(q: string, s: string) {
    exists i :: 0 <= i <= |s| && OccursAt(q, s, i)
  }

  predicate OccursAt(q: string, s: string, i: int) {
    0 <= i <= |s| - |q| && s[i..i + |q|] == q
  }

  predicate StartsWith(s: string, p: string) {
    |p| <= |s| && s[..|p|] == p
  }

  predicate EndsWith(s: string, p: string) {
    |p| <= |s| && s[|s| - |p|..] == p
  }

  /** Python's `a <= b` on strings: lexicographic on code points, a prefix first. */
  predicate LexLe(a: string, b: string)
    decreases |a|
  {
    |a| == 0 || (|b| > 0 && (a[0] < b[0] || (a[0] == b[0] && LexLe(a[1..], b[1..]))))
  }

  lemma {:induction false} LexLeTotal(a: string, b: string)
    ensures LexLe(a, b) || LexLe(b, a)
    decreases |a|
  {
    if |a| > 0 && |b| > 0 && a[0] == b[0] {
      LexLeTotal(a[1..], b[1..]);
    }
  }

  lemma {:induction false} LexLeTransitive(a: string, b: string, c: string)
    requires LexLe(a, b) && LexLe(b, c)
    ensures LexLe(a, c)
    decreases |a|
  {
    if |a| > 0 && a[0] == b[0] && b[0] == c[0] {
      LexLeTransitive(a[1..], b[1..], c[1..]);
    }
  }

  lemma {:induction false} LexLeAntisymmetric(a: string, b: string)
    requires LexLe(a, b) && LexLe(b, a)
    ensures a == b
    decreases |a|
  {
    if |a| > 0 {
      LexLeAntisymmetric(a[1..], b[1..]);
      assert a == [a[0]] + a[1..] && b == [b[0]] + b[1..];
    }
  }

  /**
   * `str.lower()` on one character: ASCII A-Z and the Latin-1 capitals
   * (U+00C0..U+00DE except the multiplication sign, which includes the Danish
   * Æ, Ø and Å) map to their small letters; everything else is unchanged.
   */
  function LowerChar(c: char): (r: char)
    ensures ('A' <= c <= 'Z') ==> 'a' <= r <= 'z'
    ensures !('A' <= c <= 'Z') && !('À' <= c <= 'Þ') ==> r == c
  {
    if 'A' <= c <= 'Z' || ('À' <= c <= 'Þ' && c != '×') then
      (c as int + 32) as char
    else
      c
  }

  function Lower(s: string): (r: string)
    ensures |r| == |s|
    ensures forall i :: 0 <= i < |s| ==> r[i] == LowerChar(s[i])
  {
    seq(|s|, i requires 0 <= i < |s| => LowerChar(s[i]))
  }

  /** The whitespace `str.strip()` removes: the characters Python's `str.isspace` accepts. */
  predicate IsSpace(c: char) {
    c == ' ' || c == '\t' || c == '\n' || c == '\r' || c == '\U{B}' || c == '\U{C}'
    || ('\U{1C}' <= c <= '\U{1F}') || c == '\U{85}' || c == '\U{A0}'
    || c == '\U{1680}' || ('\U{2000}' <= c <= '\U{200A}') || c == '\U{2028}' || c == '\U{2029}'
    || c == '\U{202F}' || c == '\U{205F}' || c == '\U{3000}'
  }

  function StripLeft(s: string): (r: string)
    ensures |r| <= |s| && r == s[|s| - |r|..]
    ensures r == [] || !IsSpace(r[0])
    ensures forall i :: 0 <= i < |s| - |r| ==> IsSpace(s[i])
  {
    if |s| > 0 && IsSpace(s[0]) then StripLeft(s[1..]) else s
  }

  function StripRight(s: string): (r: string)
    ensures |r| <= |s| && r == s[..|r|]
    ensures r == [] || !IsSpace(r[|r| - 1])
    ensures forall i :: |r| <= i < |s| ==> IsSpace(s[i])
  {
    if |s| > 0 && IsSpace(s[|s| - 1]) then StripRight(s[..|s| - 1]) else s
  }

  /** `r` is `s[i..j]`, and everything of `s` outside it is whitespace. */
  predicate StrippedAt(s: string, r: string, i: int, j: int)
    requires 0 <= i <= j <= |s|
  {
    && r == s[i..j]
    && (forall k | 0 <= k < i :: IsSpace(s[k]))
    && (forall k | j <= k < |s| :: IsSpace(s[k]))
  }

  /** `str.strip()`. */
  function Strip(s: string): (r: string)
    ensures r == [] || (!IsSpace(r[0]) && !IsSpace(r[|r| - 1]))
    ensures IsSubstring(r, s)
  {
    var l := StripLeft(s);
    var r := StripRight(l);
    CutEnds(s, l, r);
    r
  }

  /** Stripping removes exactly the leading and the trailing whitespace. */
  lemma StripExact(s: string)
    ensures exists i, j | 0 <= i <= j <= |s| :: StrippedAt(s, Strip(s), i, j)
  {
    CutEnds(s, StripLeft(s), Strip(s));
  }

  /**
   * A whitespace-only prefix cut off `s` leaves `l`, and a whitespace-only
   * suffix cut off `l` leaves `r`: then `r` sits in `s` with only
   * whitespace around it.
   */
  lemma CutEnds(s: string, l: string, r: string)
    requires |l| <= |s| && l == s[|s| - |l|..]
    requires forall k | 0 <= k < |s| - |l| :: IsSpace(s[k])
    requires |r| <= |l| && r == l[..|r|]
    requires forall k | |r| <= k < |l| :: IsSpace(l[k])
    ensures OccursAt(r, s, |s| - |l|)
    ensures StrippedAt(s, r, |s| - |l|, |s| - |l| + |r|)
  {
    var i := |s| - |l|;
    assert s[i..][..|r|] == s[i..i + |r|];
    forall k | i + |r| <= k < |s|
      ensures IsSpace(s[k])
    {
      assert s[k] == l[k - i];
    }
  }

  /** The text before the first `sep`; the whole string when there is none (`s.split(sep)[0]`). */
  function BeforeFirst(s: string, sep: char): (r: string)
    ensures sep !in r
    ensures StartsWith(s, r)
    ensures sep in s ==> |r| < |s| && s[|r|] == sep
    ensures sep !in s ==> r == s
  {
    if |s| == 0 then [] else if s[0] == sep then [] else [s[0]] + BeforeFirst(s[1..], sep)
  }

  /** `s.replace(a, b)` for one-character `a` and `b`. */
  function ReplaceChar(s: string, a: char, b: char): (r: string)
    ensures |r| == |s|
    ensures forall i :: 0 <= i < |s| ==> r[i] == (if s[i] == a then b else s[i])
  {
    seq(|s|, i requires 0 <= i < |s| => if s[i] == a then b else s[i])
  }

  /** `str(n)` for a natural number: its decimal digits, no leading zero. */
  function NatToString(n: nat): (r: string)
    ensures |r| >= 1
    ensures forall i :: 0 <= i < |r| ==> '0' <= r[i] <= '9'
    ensures n >= 10 ==> r[0] != '0'
    decreases n
  {
    if n < 10 then ['0' + n as char]
    else NatToString(n / 10) + ['0' + (n % 10) as char]
  }

  /** The value of a string of decimal digits (the inverse of NatToString). */
  function DigitsValue(s: string): nat
    requires forall i :: 0 <= i < |s| ==> '0' <= s[i] <= '9'
  {
    if s == [] then 0 else DigitsValue(s[..|s| - 1]) * 10 + (s[|s| - 1] - '0') as nat
  }

  lemma {:induction false} NatToStringRoundTrip(n: nat)
    ensures DigitsValue(NatToString(n)) == n
    decreases n
  {
    if n >= 10 {
      var r := NatToString(n);
      NatToStringRoundTrip(n / 10);
      assert r[..|r| - 1] == NatToString(n / 10);
    }
  }
}
