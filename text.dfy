/**
 * strings.TrimSpace: removes the leading and trailing characters that unicode.IsSpace accepts.
 * Go's implementation takes an ASCII fast path and falls back to a rune-by-rune scan; on
 * well-formed text both give the slice between the first and the last non-space character.
 */
module Text {

  /**
   * unicode.IsSpace: '\t', '\n', '\v', '\f', '\r', ' ', U+0085 and U+00A0 in Latin-1, and the
   * other characters of the Unicode White_Space property (U+1680, U+2000 to U+200A, U+2028,
   * U+2029, U+202F, U+205F, U+3000).
   */
  predicate IsSpace(c: char)
  {
    ('\t' <= c <= '\r') || c == ' ' || c == '\U{85}' || c == '\U{A0}' || c == '\U{1680}'
    || ('\U{2000}' <= c <= '\U{200A}') || c == '\U{2028}' || c == '\U{2029}' || c == '\U{202F}'
    || c == '\U{205F}' || c == '\U{3000}'
  }

  /** The number of space characters at the start of s. */
  function LeadingSpaces(s: string): (n: nat)
    ensures n <= |s|
    ensures forall i :: 0 <= i < n ==> IsSpace(s[i])
    ensures n < |s| ==> !IsSpace(s[n])
  {
    if |s| > 0 && IsSpace(s[0]) then 1 + LeadingSpaces(s[1..]) else 0
  }

  /** The number of space characters at the end of s. */
  function TrailingSpaces(s: string): (n: nat)
    ensures n <= |s|
    ensures forall i :: |s| - n <= i < |s| ==> IsSpace(s[i])
    ensures n < |s| ==> !IsSpace(s[|s| - 1 - n])
  {
    if |s| > 0 && IsSpace(s[|s| - 1]) then 1 + TrailingSpaces(s[..|s| - 1]) else 0
  }

  /**
   * strings.TrimSpace: the part of s between its leading and its trailing spaces. Everything
   * cut off is space, and what is kept neither starts nor ends with a space.
   */
  function TrimSpace(s: string): (r: string)
    ensures LeadingSpaces(s) + |r| <= |s|
    ensures r == s[LeadingSpaces(s)..LeadingSpaces(s) + |r|]
    ensures forall i :: 0 <= i < LeadingSpaces(s) ==> IsSpace(s[i])
    ensures forall i :: LeadingSpaces(s) + |r| <= i < |s| ==> IsSpace(s[i])
    ensures r != [] ==> !IsSpace(r[0]) && !IsSpace(r[|r| - 1])
  {
    var rest := s[LeadingSpaces(s)..];
    rest[..|rest| - TrailingSpaces(rest)]
  }

  /** Trimming twice is trimming once. */
  lemma TrimSpaceIdempotent(s: string)
    ensures TrimSpace(TrimSpace(s)) == TrimSpace(s)
  {
    var r := TrimSpace(s);
    if r != [] {
      assert LeadingSpaces(r) == 0;
      assert TrailingSpaces(r) == 0;
    }
  }

  /** A text with no space at either end is its own trim. */
  lemma TrimSpaceOfTrimmed(s: string)
    requires s != [] ==> !IsSpace(s[0]) && !IsSpace(s[|s| - 1])
    ensures TrimSpace(s) == s
  {
    if s != [] {
      assert LeadingSpaces(s) == 0;
    }
  }

  /** A final space character, such as the newline `echo` adds, is trimmed off a trimmed text. */
  lemma TrimSpaceDropsTrailing(t: string, c: char)
    requires t != [] && !IsSpace(t[0]) && !IsSpace(t[|t| - 1]) && IsSpace(c)
    ensures TrimSpace(t + [c]) == t
  {
    var s := t + [c];
    assert LeadingSpaces(s) == 0;
    assert s[..|s| - 1] == t;
    assert TrailingSpaces(t) == 0;
    assert TrailingSpaces(s) == 1;
  }
}
