/** The string operations the UI relies on: `toLowerCase` (restricted to
    ASCII letters), `includes` and `trim` (with ECMAScript's exact set of
    white-space and line-terminator code points). */
module Text {

  /** The result is never an upper-case ASCII letter: an upper-case
      letter becomes a lower-case one, anything else is kept. */
  function LowerChar(c: char): (d: char)
    ensures !('A' <= d <= 'Z')
    ensures 'A' <= c <= 'Z' ==> 'a' <= d <= 'z'
    ensures !('A' <= c <= 'Z') ==> d == c
  {
    if 'A' <= c <= 'Z' then (c as int + 32) as char else c
  }

  /** `String.prototype.toLowerCase` on ASCII letters; every other
      character is left as it is. */
  function Lower(s: string): string
  {
    seq(|s|, i requires 0 <= i < |s| => LowerChar(s[i]))
  }

  lemma {:induction false} LowerIdempotent(s: string)
    ensures Lower(Lower(s)) == Lower(s)
  {
    var once := Lower(s);
    assert |Lower(once)| == |once|;
    forall i | 0 <= i < |s| ensures Lower(once)[i] == once[i] {
      assert once[i] == LowerChar(s[i]);
    }
  }

  predicate StartsWith(s: string, prefix: string)
  {
    |prefix| <= |s| && s[..|prefix|] == prefix
  }

  /** `String.prototype.includes`: needle occurs in haystack at some
      position. */
  predicate Contains(haystack: string, needle: string)
    decreases |haystack|
  {
    StartsWith(haystack, needle) || (haystack != [] && Contains(haystack[1..], needle))
  }

  /** needle is the slice of haystack that starts at position i. */
  predicate OccursAt(haystack: string, needle: string, i: int)
  {
    0 <= i <= |haystack| - |needle| && haystack[i..i + |needle|] == needle
  }

  lemma {:induction false} ContainsIffOccurs(haystack: string, needle: string)
    ensures Contains(haystack, needle) <==> exists i :: OccursAt(haystack, needle, i)
    decreases |haystack|
  {
    if haystack != [] {
      ContainsIffOccurs(haystack[1..], needle);
      var tail := haystack[1..];
      if Contains(tail, needle) {
        var i :| OccursAt(tail, needle, i);
        assert haystack[i + 1..i + 1 + |needle|] == needle;
        assert OccursAt(haystack, needle, i + 1);
      }
      if StartsWith(haystack, needle) {
        assert OccursAt(haystack, needle, 0);
      }
      if exists i :: OccursAt(haystack, needle, i) {
        var i :| OccursAt(haystack, needle, i);
        if i > 0 {
          assert tail[i - 1..i - 1 + |needle|] == needle;
          assert OccursAt(tail, needle, i - 1);
        }
      }
    } else {
      if StartsWith(haystack, needle) {
        assert OccursAt(haystack, needle, 0);
      }
    }
  }

  /** The position of an occurrence. */
  lemma OccurrenceOf(haystack: string, needle: string) returns (i: int)
    requires Contains(haystack, needle)
    ensures OccursAt(haystack, needle, i)
  {
    ContainsIffOccurs(haystack, needle);
    i :| OccursAt(haystack, needle, i);
  }

  lemma OccursContains(haystack: string, needle: string, i: int)
    requires OccursAt(haystack, needle, i)
    ensures Contains(haystack, needle)
  {
    ContainsIffOccurs(haystack, needle);
  }

  /** An occurrence of an occurrence is an occurrence. */
  lemma ContainsTransitive(a: string, b: string, c: string)
    requires Contains(a, b) && Contains(b, c)
    ensures Contains(a, c)
  {
    var i := OccurrenceOf(a, b);
    var j := OccurrenceOf(b, c);
    forall k | 0 <= k < |c| ensures a[i + j + k] == c[k] {
      assert a[i..i + |b|][j + k] == b[j + k];
      assert b[j..j + |c|][k] == c[k];
    }
    assert a[i + j..i + j + |c|] == c;
    OccursContains(a, c, i + j);
  }

  /** Lower-casing commutes with slicing. */
  lemma LowerSlice(s: string, i: nat, j: nat)
    requires i <= j <= |s|
    ensures Lower(s)[i..j] == Lower(s[i..j])
  {
    assert forall k :: 0 <= k < j - i ==> s[i..j][k] == s[i + k];
  }

  /** Lower-casing works character by character, so it keeps occurrences. */
  lemma LowerKeepsContains(a: string, b: string)
    requires Contains(a, b)
    ensures Contains(Lower(a), Lower(b))
  {
    var i := OccurrenceOf(a, b);
    LowerSlice(a, i, i + |b|);
    OccursContains(Lower(a), Lower(b), i);
  }

  /** ECMAScript WhiteSpace and LineTerminator code points: what `trim`
      removes. */
  predicate IsWhitespace(c: char)
  {
    c == '\t' || c == '\n' || c == '\U{B}' || c == '\U{C}' || c == '\r' ||
    c == ' ' || c == '\U{A0}' || c == '\U{1680}' ||
    ('\U{2000}' <= c <= '\U{200A}') ||
    c == '\U{2028}' || c == '\U{2029}' || c == '\U{202F}' || c == '\U{205F}' ||
    c == '\U{3000}' || c == '\U{FEFF}'
  }

  function TrimStart(s: string): string
  {
    if s != [] && IsWhitespace(s[0]) then TrimStart(s[1..]) else s
  }

  function TrimEnd(s: string): string
  {
    if s != [] && IsWhitespace(s[|s| - 1]) then TrimEnd(s[..|s| - 1]) else s
  }

  /** `String.prototype.trim`. */
  function Trim(s: string): string
  {
    TrimEnd(TrimStart(s))
  }

  predicate AllWhitespace(s: string)
  {
    forall i :: 0 <= i < |s| ==> IsWhitespace(s[i])
  }

  /** TrimStart drops exactly the leading white space. */
  lemma {:induction false} TrimStartDrops(s: string)
    ensures var t := TrimStart(s);
      |t| <= |s| && t == s[|s| - |t|..] &&
      AllWhitespace(s[..|s| - |t|]) &&
      (t != [] ==> !IsWhitespace(t[0]))
  {
    if s != [] && IsWhitespace(s[0]) {
      TrimStartDrops(s[1..]);
      var t := TrimStart(s);
      assert s[1..][|s| - 1 - |t|..] == s[|s| - |t|..];
      forall i | 0 <= i < |s| - |t| ensures IsWhitespace(s[i]) {
        if i > 0 {
          assert s[1..][..|s| - 1 - |t|][i - 1] == s[i];
        }
      }
    }
  }

  /** TrimEnd drops exactly the trailing white space. */
  lemma {:induction false} TrimEndDrops(s: string)
    ensures var t := TrimEnd(s);
      |t| <= |s| && t == s[..|t|] &&
      AllWhitespace(s[|t|..]) &&
      (t != [] ==> !IsWhitespace(t[|t| - 1]))
  {
    if s != [] && IsWhitespace(s[|s| - 1]) {
      var init := s[..|s| - 1];
      TrimEndDrops(init);
      var t := TrimEnd(s);
      assert init[..|t|] == s[..|t|];
      forall i | |t| <= i < |s| ensures IsWhitespace(s[i]) {
        if i < |s| - 1 {
          assert init[|t|..][i - |t|] == s[i];
        }
      }
    }
  }

  /** Trim(s) is the slice of s left after removing leading and trailing
      white space: everything outside it is white space, and it neither
      starts nor ends with white space. */
  lemma TrimIsCore(s: string)
    ensures var t, lo := Trim(s), |s| - |TrimStart(s)|;
      0 <= lo && lo + |t| <= |s| && t == s[lo..lo + |t|] &&
      AllWhitespace(s[..lo]) && AllWhitespace(s[lo + |t|..]) &&
      (t != [] ==> !IsWhitespace(t[0]) && !IsWhitespace(t[|t| - 1]))
  {
    var u := TrimStart(s);
    var t := Trim(s);
    var lo := |s| - |u|;
    TrimStartDrops(s);
    TrimEndDrops(u);
    assert u[..|t|] == s[lo..lo + |t|];
    assert u[|t|..] == s[lo + |t|..];
    if t != [] {
      assert t[0] == u[0];
    }
  }

  /** A draft is blank exactly when it is all white space. */
  lemma TrimEmptyIffBlank(s: string)
    ensures Trim(s) == [] <==> AllWhitespace(s)
  {
    TrimIsCore(s);
    var t, lo := Trim(s), |s| - |TrimStart(s)|;
    if t == [] {
      assert s == s[..lo] + s[lo..];
      forall i | 0 <= i < |s| ensures IsWhitespace(s[i]) {
        if i < lo { assert s[..lo][i] == s[i]; } else { assert s[lo..][i - lo] == s[i]; }
      }
    } else {
      assert s[lo] == t[0];
    }
  }

  lemma TrimIdempotent(s: string)
    ensures Trim(Trim(s)) == Trim(s)
  {
    TrimIsCore(s);
    var t := Trim(s);
    if t != [] {
      assert TrimStart(t) == t;
      assert TrimEnd(t) == t;
    }
  }
}
