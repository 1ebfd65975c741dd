/** Text helpers shared by the store and the clipboard monitor: Foundation's
    whitespace trimming, SQLite's ASCII-only case folding and substring
    containment. Strings are sequences of Unicode scalar values. */
module Text {

  /** Membership in Foundation's `whitespacesAndNewlines` character set:
      the Unicode separators (categories Zs, Zl, Zp), the control characters
      U+0009 through U+000D and NEXT LINE (U+0085). */
  predicate IsWhitespace(c: char) {
    ('\U{0009}' <= c <= '\U{000D}') || c == ' ' || c == '\U{0085}' || c == '\U{00A0}'
    || c == '\U{1680}' || ('\U{2000}' <= c <= '\U{200A}') || c == '\U{2028}'
    || c == '\U{2029}' || c == '\U{202F}' || c == '\U{205F}' || c == '\U{3000}'
  }

  predicate AllWhitespace(s: string) {
    forall k :: 0 <= k < |s| ==> IsWhitespace(s[k])
  }

  /** Number of whitespace characters at the start of `s`. */
  function Leading(s: string): (n: nat)
    ensures n <= |s|
    ensures forall k :: 0 <= k < n ==> IsWhitespace(s[k])
    ensures n < |s| ==> !IsWhitespace(s[n])
  {
    if s != [] && IsWhitespace(s[0]) then
      var n := 1 + Leading(s[1..]);
      assert forall k :: 1 <= k < n ==> s[k] == s[1..][k - 1];
      n
    else 0
  }

  /** Number of whitespace characters at the end of `s`. */
  function Trailing(s: string): (n: nat)
    ensures n <= |s|
    ensures forall k :: |s| - n <= k < |s| ==> IsWhitespace(s[k])
    ensures n < |s| ==> !IsWhitespace(s[|s| - 1 - n])
  {
    if s != [] && IsWhitespace(s[|s| - 1]) then
      var n := 1 + Trailing(s[..|s| - 1]);
      assert forall k :: |s| - n <= k < |s| - 1 ==> s[k] == s[..|s| - 1][k];
      n
    else 0
  }

  /** A text that is not all whitespace keeps its first non-blank character
      before its trailing whitespace. */
  lemma LeadingBeforeTrailing(s: string)
    requires Leading(s) < |s|
    ensures Leading(s) < |s| - Trailing(s)
  {
  }

  /** `text.trimmingCharacters(in: .whitespacesAndNewlines)`: the text with
      every leading and trailing whitespace character removed (characterised
      by TrimBlankIff, TrimEndsNotBlank and TrimCutsOnlyWhitespace). */
  function Trim(s: string): (r: string) {
    if Leading(s) == |s| then []
    else
      LeadingBeforeTrailing(s);
      s[Leading(s)..|s| - Trailing(s)]
  }

  /** Trim gives the empty text exactly when the text is whitespace only. */
  lemma TrimBlankIff(s: string)
    ensures Trim(s) == [] <==> AllWhitespace(s)
  {
    if Leading(s) < |s| {
      LeadingBeforeTrailing(s);
      assert !IsWhitespace(s[Leading(s)]);
    }
  }

  /** A non-empty trimmed text neither starts nor ends with whitespace. */
  lemma TrimEndsNotBlank(s: string)
    ensures Trim(s) != [] ==> !IsWhitespace(Trim(s)[0]) && !IsWhitespace(Trim(s)[|Trim(s)| - 1])
  {
    if Leading(s) < |s| {
      LeadingBeforeTrailing(s);
      var r := Trim(s);
      assert r[0] == s[Leading(s)];
      assert r[|r| - 1] == s[|s| - 1 - Trailing(s)];
    }
  }

  /** Trim keeps a contiguous piece of the text, starting after its leading
      whitespace, and cuts away only whitespace. */
  lemma TrimCutsOnlyWhitespace(s: string)
    ensures var i, r := Leading(s), Trim(s);
            i + |r| <= |s| && r == s[i..i + |r|]
            && (forall k :: 0 <= k < i ==> IsWhitespace(s[k]))
            && (forall k :: i + |r| <= k < |s| ==> IsWhitespace(s[k]))
  {
    if Leading(s) < |s| {
      LeadingBeforeTrailing(s);
    }
  }

  /** A string with no whitespace at either end is left alone by Trim. */
  lemma TrimFixesTrimmed(s: string)
    requires s == [] || (!IsWhitespace(s[0]) && !IsWhitespace(s[|s| - 1]))
    ensures Trim(s) == s
  {
    if s != [] {
      assert Leading(s) == 0 && Trailing(s) == 0;
      assert s[0..|s|] == s;
    }
  }

  /** Trimming is idempotent: trimming an already trimmed text changes nothing. */
  lemma TrimIdempotent(s: string)
    ensures Trim(Trim(s)) == Trim(s)
  {
    TrimEndsNotBlank(s);
    TrimFixesTrimmed(Trim(s));
  }

  /** Surrounding spaces are trimmed away, inner ones kept. */
  lemma TrimExample()
    ensures Trim("  Trimmed text  ") == "Trimmed text"
  {
    var t := "Trimmed text";
    var s := "  " + t + "  ";
    assert s == "  Trimmed text  ";
    ExampleLeading(s);
    ExampleTrailing(s);
    assert s[2..|s| - 2] == t;
  }

  lemma ExampleLeading(s: string)
    requires s == "  Trimmed text  "
    ensures Leading(s) == 2
  {
    assert !IsWhitespace(s[2]);
    assert s[1..][1..] == s[2..];
    assert Leading(s[2..]) == 0;
  }

  lemma ExampleTrailing(s: string)
    requires s == "  Trimmed text  "
    ensures Trailing(s) == 2
  {
    assert !IsWhitespace(s[|s| - 3]);
    assert s[..|s| - 1][..|s| - 2] == s[..|s| - 2];
    assert Trailing(s[..|s| - 2]) == 0;
  }

  /** SQLite's built-in case folding for LIKE: ASCII letters only. */
  function FoldCase(c: char): (r: char)
    ensures !('A' <= r <= 'Z')
    ensures r == c || ('A' <= c <= 'Z' && r as int == c as int + 32)
  {
    if 'A' <= c <= 'Z' then (c as int + 32) as char else c
  }

  function Folded(s: string): (r: string)
    ensures |r| == |s|
  {
    seq(|s|, k requires 0 <= k < |s| => FoldCase(s[k]))
  }

  lemma FoldedSuffix(s: string, i: nat)
    requires i <= |s|
    ensures Folded(s)[i..] == Folded(s[i..])
  {
  }

  /** `needle` occurs as a contiguous piece of `hay`. */
  predicate Contains(hay: string, needle: string) {
    exists i :: 0 <= i <= |hay| && needle <= hay[i..]
  }

  /** Case-insensitive (ASCII) containment, SQLite's `text LIKE '%q%'` for a
      wildcard-free `q`. */
  predicate ContainsIgnoringCase(text: string, q: string) {
    Contains(Folded(text), Folded(q))
  }
}
