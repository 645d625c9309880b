/**
 * String helpers with JavaScript's meaning: the white-space class shared by
 * `String.prototype.trim` and the regular-expression class `\s`, trimming,
 * ASCII lower-casing, prefixes and substrings, and the UTF-8 and UTF-16
 * lengths of a string of Unicode scalar values.
 */
module Text {

  /** ECMAScript WhiteSpace and LineTerminator code points: what `trim()`
      strips and what `\s` matches. */
  predicate IsJsSpace(c: char)
    ensures c as int < 0x80 ==> (IsJsSpace(c) <==> c == ' ' || 9 <= c as int <= 13)
    ensures IsJsSpace(c) ==> c as int <= 0xFEFF
  {
    || c == '\t' || c == '\n' || c == '\U{B}' || c == '\U{C}' || c == '\r'
    || c == ' ' || c == '\U{A0}' || c == '\U{1680}'
    || ('\U{2000}' <= c <= '\U{200A}')
    || c == '\U{2028}' || c == '\U{2029}' || c == '\U{202F}'
    || c == '\U{205F}' || c == '\U{3000}' || c == '\U{FEFF}'
  }

  /** Number of white-space characters at the front of `s`. */
  function LeadingSpaces(s: string): (n: nat)
    ensures n <= |s|
    ensures forall k :: 0 <= k < n ==> IsJsSpace(s[k])
    ensures n < |s| ==> !IsJsSpace(s[n])
  {
    if s != [] && IsJsSpace(s[0]) then 1 + LeadingSpaces(s[1..]) else 0
  }

  /** Number of white-space characters at the back of `s`. */
  function TrailingSpaces(s: string): (n: nat)
    ensures n <= |s|
    ensures forall k :: |s| - n <= k < |s| ==> IsJsSpace(s[k])
    ensures n < |s| ==> !IsJsSpace(s[|s| - n - 1])
  {
    if s != [] && IsJsSpace(s[|s| - 1]) then 1 + TrailingSpaces(s[..|s| - 1]) else 0
  }

  /** `s.trim()`: the middle of `s` left when the white space at both ends is
      cut off. */
  function Trim(s: string): (r: string)
    ensures exists i, j ::
              && 0 <= i <= j <= |s| && r == s[i..j]
              && (forall k :: 0 <= k < i ==> IsJsSpace(s[k]))
              && (forall k :: j <= k < |s| ==> IsJsSpace(s[k]))
    ensures r != [] ==> !IsJsSpace(r[0]) && !IsJsSpace(r[|r| - 1])
  {
    var i := LeadingSpaces(s);
    var j := |s| - TrailingSpaces(s[i..]);
    s[i..j]
  }

  /** Leading white space in front of a text that starts with something
      else is counted exactly. */
  lemma {:induction false} LeadingSpacesBefore(lead: string, rest: string)
    requires forall k :: 0 <= k < |lead| ==> IsJsSpace(lead[k])
    requires rest != [] && !IsJsSpace(rest[0])
    ensures LeadingSpaces(lead + rest) == |lead|
  {
    if lead != [] {
      assert (lead + rest)[1..] == lead[1..] + rest;
      LeadingSpacesBefore(lead[1..], rest);
    } else {
      assert lead + rest == rest;
    }
  }

  /** Trailing white space behind a text that ends with something else is
      counted exactly. */
  lemma {:induction false} TrailingSpacesAfter(rest: string, trail: string)
    requires forall k :: 0 <= k < |trail| ==> IsJsSpace(trail[k])
    requires rest != [] && !IsJsSpace(rest[|rest| - 1])
    ensures TrailingSpaces(rest + trail) == |trail|
  {
    if trail != [] {
      assert (rest + trail)[..|rest + trail| - 1] == rest + trail[..|trail| - 1];
      TrailingSpacesAfter(rest, trail[..|trail| - 1]);
    } else {
      assert rest + trail == rest;
    }
  }

  /** Trimming a text with white space around it gives the text back. */
  lemma {:induction false} TrimSurrounded(lead: string, t: string, trail: string)
    requires forall k :: 0 <= k < |lead| ==> IsJsSpace(lead[k])
    requires forall k :: 0 <= k < |trail| ==> IsJsSpace(trail[k])
    requires t != [] && !IsJsSpace(t[0]) && !IsJsSpace(t[|t| - 1])
    ensures Trim(lead + t + trail) == t
  {
    var s := lead + t + trail;
    assert s == lead + (t + trail);
    LeadingSpacesBefore(lead, t + trail);
    assert s[|lead|..] == t + trail;
    TrailingSpacesAfter(t, trail);
    assert s[|lead|..|s| - |trail|] == t;
  }

  /** A string without white space at either end is its own trim. */
  lemma {:induction false} TrimUnspaced(s: string)
    requires s != [] ==> !IsJsSpace(s[0]) && !IsJsSpace(s[|s| - 1])
    ensures Trim(s) == s
  {
    if s != [] {
      assert LeadingSpaces(s) == 0;
      assert TrailingSpaces(s) == 0;
    }
  }

  /** The lower-case letter of an ASCII capital; any other character is
      kept. */
  function LowerChar(c: char): char {
    if 'A' <= c <= 'Z' then (c as int + 32) as char else c
  }

  /** Lower-casing of the ASCII letters; every other character is kept. */
  function AsciiLower(s: string): (r: string)
    ensures |r| == |s|
    ensures forall k :: 0 <= k < |s| ==> r[k] == LowerChar(s[k])
  {
    if s == [] then [] else [LowerChar(s[0])] + AsciiLower(s[1..])
  }

  /** `a` and `b` spell the same text when ASCII case is ignored. */
  predicate SameIgnoringAsciiCase(a: string, b: string) {
    |a| == |b| && forall k :: 0 <= k < |a| ==> LowerChar(a[k]) == LowerChar(b[k])
  }

  /** `sub` occurs in `s` at `i` when ASCII case is ignored. */
  predicate OccursIgnoringCaseAt(s: string, sub: string, i: int) {
    0 <= i <= |s| - |sub| && SameIgnoringAsciiCase(s[i..i + |sub|], sub)
  }

  /** A text without ASCII capitals is its own lower-case form. */
  lemma {:induction false} LowerKept(s: string)
    requires forall k :: 0 <= k < |s| ==> !('A' <= s[k] <= 'Z')
    ensures AsciiLower(s) == s
  {
    assert forall k :: 0 <= k < |s| ==> AsciiLower(s)[k] == s[k];
  }

  /** Lower-casing commutes with taking a slice. */
  lemma {:induction false} AsciiLowerSlice(s: string, i: int, j: int)
    requires 0 <= i <= j <= |s|
    ensures AsciiLower(s)[i..j] == AsciiLower(s[i..j])
  {
  }

  /** A text lower-cases to a lower-case pattern exactly when it spells
      the pattern up to ASCII case. */
  lemma {:induction false} LowerMatches(s: string, p: string)
    requires AsciiLower(p) == p
    ensures AsciiLower(s) == p <==> SameIgnoringAsciiCase(s, p)
  {
    if SameIgnoringAsciiCase(s, p) {
      assert forall k :: 0 <= k < |p| ==> LowerChar(p[k]) == p[k] by {
        forall k | 0 <= k < |p| ensures LowerChar(p[k]) == p[k] {
          assert AsciiLower(p)[k] == LowerChar(p[k]);
        }
      }
    }
  }

  predicate StartsWith(s: string, prefix: string) {
    |prefix| <= |s| && s[..|prefix|] == prefix
  }

  predicate EndsWith(s: string, suffix: string) {
    |suffix| <= |s| && s[|s| - |suffix|..] == suffix
  }

  predicate OccursAt(s: string, sub: string, i: int) {
    0 <= i <= |s| - |sub| && s[i..i + |sub|] == sub
  }

  /** `s.includes(sub)` */
  predicate Contains(s: string, sub: string) {
    exists i :: 0 <= i <= |s| && OccursAt(s, sub, i)
  }

  /** Bytes UTF-8 takes for one scalar value. */
  function Utf8Width(c: char): (w: nat)
    ensures 1 <= w <= 4
  {
    if c as int < 0x80 then 1
    else if c as int < 0x800 then 2
    else if c as int < 0x1_0000 then 3
    else 4
  }

  /** `new TextEncoder().encode(s).length` */
  function Utf8Length(s: string): (n: nat)
    ensures |s| <= n <= 4 * |s|
  {
    if s == [] then 0 else Utf8Width(s[0]) + Utf8Length(s[1..])
  }

  /** `s.length`: UTF-16 code units, two for a scalar value above U+FFFF. */
  function Utf16Length(s: string): (n: nat)
    ensures |s| <= n <= 2 * |s|
  {
    if s == [] then 0
    else (if s[0] as int < 0x1_0000 then 1 else 2) + Utf16Length(s[1..])
  }

  function DigitChar(d: nat): (c: char)
    requires d < 10
    ensures '0' <= c <= '9' && c as int - '0' as int == d
  {
    ('0' as int + d) as char
  }

  predicate IsDigits(s: string) {
    forall k :: 0 <= k < |s| ==> '0' <= s[k] <= '9'
  }

  /** The number a run of decimal digits spells. */
  function DecimalValue(s: string): nat
    requires IsDigits(s)
  {
    if s == [] then 0 else DecimalValue(s[..|s| - 1]) * 10 + (s[|s| - 1] as int - '0' as int)
  }

  /** Decimal text of a natural number, as `String(n)` writes it: the
      digits spell `n`, and only 0 itself starts with a '0'. */
  function NatToString(n: nat): (r: string)
    ensures r != [] && IsDigits(r)
    ensures DecimalValue(r) == n
    ensures |r| > 1 ==> r[0] != '0'
    ensures n != 0 ==> r != "0"
    decreases n
  {
    if n < 10 then [DigitChar(n)]
    else
      var p := NatToString(n / 10);
      var r := p + [DigitChar(n % 10)];
      assert r[..|r| - 1] == p;
      r
  }

  /** The UTF-16 length of a concatenation is the sum of the lengths. */
  lemma {:induction false} Utf16LengthConcat(a: string, b: string)
    ensures Utf16Length(a + b) == Utf16Length(a) + Utf16Length(b)
  {
    if a != [] {
      assert (a + b)[1..] == a[1..] + b;
      Utf16LengthConcat(a[1..], b);
    } else {
      assert a + b == b;
    }
  }

  /** A string of Basic Multilingual Plane characters takes one code unit
      per character. */
  lemma {:induction false} Utf16LengthBmp(s: string)
    requires forall k :: 0 <= k < |s| ==> s[k] as int < 0x1_0000
    ensures Utf16Length(s) == |s|
  {
    if s != [] {
      Utf16LengthBmp(s[1..]);
    }
  }

  /** A lower-case pattern occurs in the lower-cased text exactly where it
      occurs in the text up to ASCII case. */
  lemma {:induction false} ContainsLowered(s: string, p: string)
    requires AsciiLower(p) == p
    ensures Contains(AsciiLower(s), p) <==> exists i :: OccursIgnoringCaseAt(s, p, i)
  {
    var low := AsciiLower(s);
    if Contains(low, p) {
      var i :| 0 <= i <= |low| && OccursAt(low, p, i);
      AsciiLowerSlice(s, i, i + |p|);
      LowerMatches(s[i..i + |p|], p);
      assert OccursIgnoringCaseAt(s, p, i);
    }
    if exists i :: OccursIgnoringCaseAt(s, p, i) {
      var i :| OccursIgnoringCaseAt(s, p, i);
      AsciiLowerSlice(s, i, i + |p|);
      LowerMatches(s[i..i + |p|], p);
      assert OccursAt(low, p, i);
    }
  }
}
