/**
 * The string operations the component relies on: `includes`, `toLowerCase`,
 * `trim` and the decimal rendering of a number inside a template literal.
 */
module Text {
  import opened Wrappers

  // ---------------------------------------------------------------------------
  // Substring search (`String.prototype.includes`)
  // ---------------------------------------------------------------------------

  /** `t` occurs in `s` starting at index `i`. */
  ghost predicate OccursAt(s: string, t: string, i: int) {
    0 <= i && i + |t| <= |s| && s[i..i + |t|] == t
  }

  /** `t` occurs somewhere in `s`. */
  ghost predicate HasSubstring(s: string, t: string) {
    exists i :: OccursAt(s, t, i)
  }

  /** Every occurrence of `t` in a non-empty `s` is at 0 or one past an occurrence in `s[1..]`. */
  lemma OccursInTail(s: string, t: string)
    requires s != []
    ensures HasSubstring(s, t) <==> t <= s || HasSubstring(s[1..], t)
  {
    if HasSubstring(s, t) && !(t <= s) {
      var i :| OccursAt(s, t, i);
      assert i != 0;
      assert s[1..][i - 1..i - 1 + |t|] == s[i..i + |t|];
      assert OccursAt(s[1..], t, i - 1);
    }
    if t <= s {
      assert OccursAt(s, t, 0);
    }
    if HasSubstring(s[1..], t) {
      var j :| OccursAt(s[1..], t, j);
      assert s[1..][j..j + |t|] == s[j + 1..j + 1 + |t|];
      assert OccursAt(s, t, j + 1);
    }
  }

  /** `s.includes(t)`: true exactly when `t` is a substring of `s`. */
  function Contains(s: string, t: string): (r: bool)
    ensures r <==> HasSubstring(s, t)
    decreases |s|
  {
    if t <= s then
      assert OccursAt(s, t, 0);
      true
    else if s == [] then
      false
    else
      OccursInTail(s, t);
      Contains(s[1..], t)
  }

  // ---------------------------------------------------------------------------
  // Lower-casing (`String.prototype.toLowerCase`, ASCII letters only)
  // ---------------------------------------------------------------------------

  predicate IsUpperAscii(c: char) {
    'A' <= c <= 'Z'
  }

  /** Lower-case of one character: ASCII capitals move to their small letter. */
  function LowerChar(c: char): (r: char)
    ensures !IsUpperAscii(r)
    ensures !IsUpperAscii(c) ==> r == c
    ensures IsUpperAscii(c) ==> 'a' <= r <= 'z' && r as int - 'a' as int == c as int - 'A' as int
  {
    if IsUpperAscii(c) then (c as int - 'A' as int + 'a' as int) as char else c
  }

  /** `s.toLowerCase()`: the same length, each character lower-cased in place. */
  function Lower(s: string): (r: string)
    ensures |r| == |s|
    ensures forall i :: 0 <= i < |s| ==> r[i] == LowerChar(s[i])
  {
    if s == [] then [] else [LowerChar(s[0])] + Lower(s[1..])
  }

  /** `w` matches `s` at index `i` once each character of `s` is lower-cased. */
  ghost predicate OccursIgnoringCaseAt(s: string, w: string, i: int) {
    0 <= i && i + |w| <= |s| && forall k :: 0 <= k < |w| ==> LowerChar(s[i + k]) == w[k]
  }

  ghost predicate HasSubstringIgnoringCase(s: string, w: string) {
    exists i :: OccursIgnoringCaseAt(s, w, i)
  }

  /** An occurrence in the lower-cased string is a case-insensitive occurrence, and back. */
  lemma LowerOccursAt(s: string, w: string, i: int)
    ensures OccursAt(Lower(s), w, i) <==> OccursIgnoringCaseAt(s, w, i)
  {
    if 0 <= i && i + |w| <= |s| {
      var sub := Lower(s)[i..i + |w|];
      assert forall k :: 0 <= k < |w| ==> sub[k] == LowerChar(s[i + k]);
      if OccursIgnoringCaseAt(s, w, i) {
        assert sub == w;
      }
    }
  }

  /** `s.toLowerCase().includes(w)`: `w` occurs in `s` once `s` is lower-cased. */
  function ContainsLowered(s: string, w: string): (r: bool)
    ensures r <==> HasSubstringIgnoringCase(s, w)
  {
    var r := Contains(Lower(s), w);
    assert r ==> HasSubstringIgnoringCase(s, w) by {
      if r {
        var i :| OccursAt(Lower(s), w, i);
        LowerOccursAt(s, w, i);
      }
    }
    assert HasSubstringIgnoringCase(s, w) ==> r by {
      if HasSubstringIgnoringCase(s, w) {
        var i :| OccursIgnoringCaseAt(s, w, i);
        LowerOccursAt(s, w, i);
      }
    }
    r
  }

  // ---------------------------------------------------------------------------
  // Trimming (`String.prototype.trim`)
  // ---------------------------------------------------------------------------

  /**
   * The code points `trim` removes: the WhiteSpace and LineTerminator
   * productions of ECMA-262 (sections 12.2 and 12.3): TAB, VT, FF, SP, NBSP,
   * ZWNBSP, LF, CR, LS, PS and the other space separators of category Zs.
   */
  predicate IsSpace(c: char) {
    var n := c as int;
    n == 0x09 || n == 0x0A || n == 0x0B || n == 0x0C || n == 0x0D || n == 0x20 ||
    n == 0xA0 || n == 0x1680 || (0x2000 <= n <= 0x200A) || n == 0x2028 || n == 0x2029 ||
    n == 0x202F || n == 0x205F || n == 0x3000 || n == 0xFEFF
  }

  predicate AllSpace(s: string) {
    forall k :: 0 <= k < |s| ==> IsSpace(s[k])
  }

  /** Number of leading white-space characters. */
  function LeadingSpaces(s: string): (n: nat)
    ensures n <= |s|
    ensures AllSpace(s[..n])
    ensures n < |s| ==> !IsSpace(s[n])
  {
    if s != [] && IsSpace(s[0]) then 1 + LeadingSpaces(s[1..]) else 0
  }

  /** Number of trailing white-space characters. */
  function TrailingSpaces(s: string): (n: nat)
    ensures n <= |s|
    ensures AllSpace(s[|s| - n..])
    ensures n < |s| ==> !IsSpace(s[|s| - 1 - n])
  {
    if s != [] && IsSpace(s[|s| - 1]) then 1 + TrailingSpaces(s[..|s| - 1]) else 0
  }

  /**
   * `s.trim()`: `s` is the result surrounded by white space only, the result
   * neither starts nor ends with white space, and it is empty exactly when `s`
   * is white space throughout.
   */
  function Trim(s: string): (r: string)
    ensures exists i :: TrimmedAt(s, r, i)
    ensures r != [] ==> !IsSpace(r[0]) && !IsSpace(r[|r| - 1])
    ensures r == [] <==> AllSpace(s)
  {
    var lead := LeadingSpaces(s);
    var t := s[lead..];
    var trail := TrailingSpaces(t);
    var r := t[..|t| - trail];
    TrimSurroundedBySpace(s, lead, t, trail, r);
    TrimEnds(s, lead, t, trail, r);
    TrimEmpty(s, lead, t, trail, r);
    r
  }

  /** `r` sits in `s` at index `i` with only white space before and after it. */
  ghost predicate TrimmedAt(s: string, r: string, i: int) {
    0 <= i && i + |r| <= |s| && s[i..i + |r|] == r && AllSpace(s[..i]) && AllSpace(s[i + |r|..])
  }

  /** What `Trim` cuts off at either end is white space. */
  lemma TrimSurroundedBySpace(s: string, lead: nat, t: string, trail: nat, r: string)
    requires lead == LeadingSpaces(s) && t == s[lead..]
    requires trail == TrailingSpaces(t) && r == t[..|t| - trail]
    ensures TrimmedAt(s, r, lead)
  {
    TrimSlices(s, lead, t, trail, r);
  }

  lemma TrimSlices(s: string, lead: nat, t: string, trail: nat, r: string)
    requires lead <= |s| && t == s[lead..]
    requires trail <= |t| && r == t[..|t| - trail]
    ensures lead + |r| <= |s| && s[lead..lead + |r|] == r && s[lead + |r|..] == t[|t| - trail..]
  {
  }

  /** What `Trim` keeps starts and ends with a non-white-space character. */
  lemma TrimEnds(s: string, lead: nat, t: string, trail: nat, r: string)
    requires lead == LeadingSpaces(s) && t == s[lead..]
    requires trail == TrailingSpaces(t) && r == t[..|t| - trail]
    ensures r != [] ==> !IsSpace(r[0]) && !IsSpace(r[|r| - 1])
  {
    if r != [] {
      assert r[0] == s[lead];
      assert r[|r| - 1] == t[|t| - 1 - trail];
    }
  }

  /** `Trim` keeps nothing exactly when the whole string is white space. */
  lemma TrimEmpty(s: string, lead: nat, t: string, trail: nat, r: string)
    requires lead == LeadingSpaces(s) && t == s[lead..]
    requires trail == TrailingSpaces(t) && r == t[..|t| - trail]
    ensures r == [] <==> AllSpace(s)
  {
    var a, b := s[..lead], t[|t| - trail..];
    if r == [] {
      assert t == b;
      SpacesConcat(a, b);
      assert s == a + b;
    }
  }

  lemma SpacesConcat(a: string, b: string)
    requires AllSpace(a) && AllSpace(b)
    ensures AllSpace(a + b)
  {
    forall k | 0 <= k < |a + b| ensures IsSpace((a + b)[k]) {
      if k >= |a| { assert (a + b)[k] == b[k - |a|]; }
    }
  }

  // ---------------------------------------------------------------------------
  // Decimal rendering of an integer (`${n}` for an integral Number of magnitude at most 2^53)
  // ---------------------------------------------------------------------------

  predicate IsDigit(c: char) {
    '0' <= c <= '9'
  }

  predicate AllDigits(s: string) {
    forall k :: 0 <= k < |s| ==> IsDigit(s[k])
  }

  function DigitChar(d: nat): (c: char)
    requires d < 10
    ensures IsDigit(c)
  {
    ('0' as int + d) as char
  }

  function DigitValue(c: char): nat
    requires IsDigit(c)
  {
    c as int - '0' as int
  }

  /** The decimal digits of `n`, most significant first, without leading zeros. */
  function NatString(n: nat): (r: string)
    ensures r != [] && AllDigits(r)
    ensures r[0] == '0' ==> n == 0
  {
    if n < 10 then [DigitChar(n)] else NatString(n / 10) + [DigitChar(n % 10)]
  }

  /** The number a string of decimal digits denotes (the empty string denotes 0). */
  function DigitsValue(s: string): nat
    requires AllDigits(s)
  {
    if s == [] then 0 else 10 * DigitsValue(s[..|s| - 1]) + DigitValue(s[|s| - 1])
  }

  /** The decimal rendering of a non-negative integer is read back as that integer. */
  lemma {:induction false} NatStringRoundTrip(n: nat)
    ensures DigitsValue(NatString(n)) == n
  {
    if n >= 10 {
      var s := NatString(n);
      assert s[..|s| - 1] == NatString(n / 10);
      NatStringRoundTrip(n / 10);
    }
  }

  /**
   * `${n}` for an integer of magnitude at most 2^53: an optional minus sign
   * and the digits of `|n|`. Beyond that JavaScript prints the shortest
   * round-trip digits padded with zeros, and from 10^21 on an exponent form.
   */
  function IntString(n: int): (r: string)
    ensures r != []
    ensures n >= 0 <==> r[0] != '-'
  {
    if n < 0 then "-" + NatString(-n) else NatString(n)
  }

  /** Reads an optionally signed decimal integer; the reference for `IntString`. */
  function ParseInt(s: string): Option<int> {
    if s == [] then None
    else if s[0] == '-' then
      if |s| > 1 && AllDigits(s[1..]) then var v: int := DigitsValue(s[1..]); Some(-v) else None
    else if AllDigits(s) then Some(DigitsValue(s))
    else None
  }

  /** The rendering of every integer is read back as that integer. */
  lemma {:induction false} IntStringRoundTrip(n: int)
    ensures ParseInt(IntString(n)) == Some(n)
  {
    if n < 0 {
      assert IntString(n)[1..] == NatString(-n);
      NatStringRoundTrip(-n);
    } else {
      NatStringRoundTrip(n);
    }
  }

  /** Distinct integers render differently. */
  lemma IntStringInjective(m: int, n: int)
    ensures IntString(m) == IntString(n) ==> m == n
  {
    IntStringRoundTrip(m);
    IntStringRoundTrip(n);
  }
}
