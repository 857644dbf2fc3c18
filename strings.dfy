/**
  The string primitives the search engine relies on: JavaScript's
  `toLowerCase` (restricted to ASCII, so that lengths are preserved),
  `trim`, `indexOf`, `includes`, and the decimal rendering of a number
  inside a template literal.
 */
module Strings {

  /** ASCII lower-casing of one character. */
  function LowerChar(c: char): (r: char)
    ensures !('A' <= r <= 'Z')
    ensures r == c || ('A' <= c <= 'Z' && r as int - c as int == 32)
  {
    if 'A' <= c <= 'Z' then (c as int + 32) as char else c
  }

  /** `s.toLowerCase()`, character by character; the length never changes. */
  function Lower(s: string): (r: string)
    ensures |r| == |s|
    ensures forall i :: 0 <= i < |s| ==> r[i] == LowerChar(s[i])
  {
    seq(|s|, i requires 0 <= i < |s| => LowerChar(s[i]))
  }

  lemma LowerSlice(s: string, i: nat, j: nat)
    requires i <= j <= |s|
    ensures Lower(s[i..j]) == Lower(s)[i..j]
  {
  }

  /** Lower-casing twice is lower-casing once. */
  lemma LowerIdempotent(s: string)
    ensures Lower(Lower(s)) == Lower(s)
  {
  }

  /** The characters `String.prototype.trim` removes: WhiteSpace and LineTerminator. */
  predicate IsSpace(c: char)
  {
    c == '\t' || c == '\n' || c == '\U{B}' || c == '\U{C}' || c == '\r' || c == ' ' ||
    c == '\U{A0}' || c == '\U{1680}' || ('\U{2000}' <= c <= '\U{200A}') ||
    c == '\U{2028}' || c == '\U{2029}' || c == '\U{202F}' || c == '\U{205F}' ||
    c == '\U{3000}' || c == '\U{FEFF}'
  }

  /** A string whose `trim()` is empty: empty, or whitespace only. */
  predicate IsBlank(s: string)
  {
    forall i :: 0 <= i < |s| ==> IsSpace(s[i])
  }

  /** The first index at or after `i` that does not hold whitespace (or the length). */
  function SkipSpaces(s: string, i: nat): (j: nat)
    requires i <= |s|
    ensures i <= j <= |s| && (j < |s| ==> !IsSpace(s[j]))
    ensures forall k :: i <= k < j ==> IsSpace(s[k])
    decreases |s| - i
  {
    if i == |s| || !IsSpace(s[i]) then i else SkipSpaces(s, i + 1)
  }

  /** Moves `j` back over whitespace, never below `lo`. */
  function SkipSpacesBack(s: string, lo: nat, j: nat): (k: nat)
    requires lo <= j <= |s|
    ensures lo <= k <= j && (k > lo ==> !IsSpace(s[k - 1]))
    ensures forall m :: k <= m < j ==> IsSpace(s[m])
  {
    if j == lo || !IsSpace(s[j - 1]) then j else SkipSpacesBack(s, lo, j - 1)
  }

  /** `s.trim()`: the slice of `s` between its leading and trailing whitespace. */
  function Trim(s: string): (r: string)
    ensures r == [] <==> IsBlank(s)
    ensures r != [] ==> !IsSpace(r[0]) && !IsSpace(r[|r| - 1])
  {
    var a := SkipSpaces(s, 0);
    var b := SkipSpacesBack(s, a, |s|);
    TrimSlice(s, a, b);
    s[a..b]
  }

  lemma TrimSlice(s: string, a: nat, b: nat)
    requires a <= b <= |s|
    requires forall k :: 0 <= k < a ==> IsSpace(s[k])
    requires forall k :: b <= k < |s| ==> IsSpace(s[k])
    requires a < |s| ==> !IsSpace(s[a])
    requires b > a ==> !IsSpace(s[b - 1])
    ensures IsBlank(s[..a]) && IsBlank(s[b..])
    ensures s[a..b] == [] <==> IsBlank(s)
  {
  }

  /** Trimming removes whitespace from both ends only: what is left is a slice of `s` between blank margins. */
  lemma TrimIsSlice(s: string)
    ensures exists a :: (0 <= a <= |s| - |Trim(s)| && Trim(s) == s[a..a + |Trim(s)|] &&
                         IsBlank(s[..a]) && IsBlank(s[a + |Trim(s)|..]))
  {
    var a := SkipSpaces(s, 0);
    var b := SkipSpacesBack(s, a, |s|);
    TrimSlice(s, a, b);
    assert Trim(s) == s[a..b];
  }

  /** Trimming a trimmed string changes nothing. */
  lemma TrimIdempotent(s: string)
    ensures Trim(Trim(s)) == Trim(s)
  {
    var r := Trim(s);
    if r != [] {
      assert SkipSpaces(r, 0) == 0;
      assert SkipSpacesBack(r, 0, |r|) == |r|;
    }
  }

  /** `q` occurs in `s` at offset `k`. */
  predicate Occurs(s: string, q: string, k: int)
  {
    0 <= k && k + |q| <= |s| && s[k..k + |q|] == q
  }

  /**
    `s.indexOf(q, from)`: the least offset at or after `from` (clamped to the
    length of `s`) where `q` occurs, or -1 when there is none; `IndexOfSpec`
    states this in full.
   */
  function IndexOf(s: string, q: string, from: nat): (r: int)
    ensures r == -1 || (0 <= r && r + |q| <= |s| && (from <= |s| ==> from <= r))
    decreases if from <= |s| then |s| - from + 1 else |s| + 2
  {
    if from > |s| then IndexOf(s, q, |s|)
    else if from + |q| > |s| then -1
    else if Occurs(s, q, from) then from
    else IndexOf(s, q, from + 1)
  }

  /** `indexOf` reports the first occurrence at or after `from`, and -1 only when there is none. */
  lemma {:induction false} IndexOfSpec(s: string, q: string, from: nat)
    requires from <= |s|
    ensures IndexOf(s, q, from) == -1 ==> forall k :: from <= k <= |s| ==> !Occurs(s, q, k)
    ensures IndexOf(s, q, from) != -1 ==> Occurs(s, q, IndexOf(s, q, from))
    ensures forall k :: from <= k < IndexOf(s, q, from) ==> !Occurs(s, q, k)
    decreases |s| - from
  {
    if from + |q| <= |s| && !Occurs(s, q, from) {
      IndexOfSpec(s, q, from + 1);
    }
  }

  /** `s.includes(q)`, which JavaScript defines as `s.indexOf(q) != -1`. */
  predicate Includes(s: string, q: string)
  {
    IndexOf(s, q, 0) != -1
  }

  lemma IncludesIff(s: string, q: string)
    ensures Includes(s, q) <==> exists k :: Occurs(s, q, k)
  {
    IndexOfSpec(s, q, 0);
  }

  /** The decimal digit for `d`. */
  function Digit(d: nat): (c: char)
    requires d < 10
    ensures '0' <= c <= '9'
  {
    ('0' as int + d) as char
  }

  /** The value of a string of decimal digits. */
  function DecimalValue(s: string): nat
    requires forall i :: 0 <= i < |s| ==> '0' <= s[i] <= '9'
  {
    if s == [] then 0
    else DecimalValue(s[..|s| - 1]) * 10 + (s[|s| - 1] as int - '0' as int)
  }

  /** The text a JavaScript template literal produces for a non-negative integer. */
  function Decimal(n: nat): (r: string)
    ensures r != [] && forall i :: 0 <= i < |r| ==> '0' <= r[i] <= '9'
    ensures r[0] == '0' ==> r == "0"
    ensures DecimalValue(r) == n
  {
    if n < 10 then [Digit(n)]
    else
      var r := Decimal(n / 10) + [Digit(n % 10)];
      assert r[..|r| - 1] == Decimal(n / 10);
      r
  }

  /** Distinct numbers are rendered differently. */
  lemma DecimalInjective(m: nat, n: nat)
    requires Decimal(m) == Decimal(n)
    ensures m == n
  {
  }
}
