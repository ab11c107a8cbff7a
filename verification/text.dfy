/** String helpers the user interface relies on: JavaScript's
    `String.prototype.trim` and the length-capped preview of a note. */
module Text {

  /** The characters `trim` strips: ECMAScript's WhiteSpace (tab, vertical
      tab, form feed, space, no-break space, byte order mark and the Unicode
      space separators) and LineTerminator (line feed, carriage return, line
      and paragraph separators). */
  predicate IsWhitespace(c: char)
  {
    c == '\t' || c == '\n' || c == '\U{B}' || c == '\U{C}' || c == '\r' || c == ' ' ||
    c == '\U{A0}' || c == '\U{1680}' || ('\U{2000}' <= c <= '\U{200A}') ||
    c == '\U{2028}' || c == '\U{2029}' || c == '\U{202F}' || c == '\U{205F}' ||
    c == '\U{3000}' || c == '\U{FEFF}'
  }

  predicate AllWhitespace(s: string)
  {
    forall i :: 0 <= i < |s| ==> IsWhitespace(s[i])
  }

  /** The index of the first character at or after `i` that is not
      whitespace, or `|s|` when there is none. */
  function SkipForward(s: string, i: nat): (n: nat)
    requires i <= |s|
    ensures i <= n <= |s|
    ensures forall j :: i <= j < n ==> IsWhitespace(s[j])
    ensures n == |s| || !IsWhitespace(s[n])
    decreases |s| - i
  {
    if i < |s| && IsWhitespace(s[i]) then SkipForward(s, i + 1) else i
  }

  /** The index just past the last character before `j` (and at or after
      `lo`) that is not whitespace, or `lo` when there is none. */
  function SkipBackward(s: string, lo: nat, j: nat): (n: nat)
    requires lo <= j <= |s|
    ensures lo <= n <= j
    ensures forall k :: n <= k < j ==> IsWhitespace(s[k])
    ensures n == lo || !IsWhitespace(s[n - 1])
  {
    if j > lo && IsWhitespace(s[j - 1]) then SkipBackward(s, lo, j - 1) else j
  }

  /** `s.trim()`: the longest slice of `s` that neither starts nor ends with
      whitespace, once only whitespace has been cut from either end. */
  function Trim(s: string): (r: string)
    ensures |r| == 0 || (!IsWhitespace(r[0]) && !IsWhitespace(r[|r| - 1]))
    ensures exists k :: 0 <= k <= |s| - |r| && r == s[k..k + |r|] &&
                        AllWhitespace(s[..k]) && AllWhitespace(s[k + |r|..])
  {
    var a := SkipForward(s, 0);
    var b := SkipBackward(s, a, |s|);
    assert AllWhitespace(s[..a]);
    assert AllWhitespace(s[b..]);
    s[a..b]
  }

  /** A string trims to the empty string exactly when it is all whitespace;
      this is what `if (value.trim())` tests. */
  lemma TrimEmptyIff(s: string)
    ensures Trim(s) == "" <==> AllWhitespace(s)
  {
    var r := Trim(s);
    var k :| 0 <= k <= |s| - |r| && r == s[k..k + |r|] &&
             AllWhitespace(s[..k]) && AllWhitespace(s[k + |r|..]);
    if r == "" {
      forall i | 0 <= i < |s| ensures IsWhitespace(s[i]) {
        if i < k {
          assert s[..k][i] == s[i];
        } else {
          assert s[k..][i - k] == s[i];
        }
      }
    } else {
      assert s[k] == r[0];
    }
  }

  /** Trimming an already trimmed string changes nothing. */
  lemma TrimIdempotent(s: string)
    ensures Trim(Trim(s)) == Trim(s)
  {
    var r := Trim(s);
    if |r| > 0 {
      assert SkipForward(r, 0) == 0;
      assert SkipBackward(r, 0, |r|) == |r|;
      assert r[0..|r|] == r;
    }
  }

  /** The notes view's default preview length. */
  const PreviewMaxLength: nat := 150

  /** The last step of the preview: a text longer than `maxLength` is cut to
      its first `maxLength` characters followed by "..."; a shorter one is
      shown whole. */
  function Truncate(text: string, maxLength: nat): (r: string)
    ensures |r| <= maxLength + 3
    ensures |text| <= maxLength ==> r == text
    ensures |text| > maxLength ==> |r| == maxLength + 3 && r[..maxLength] == text[..maxLength] && r[maxLength..] == "..."
  {
    if |text| > maxLength then text[..maxLength] + "..." else text
  }

  /** Truncating a preview a second time leaves it as it is. */
  lemma TruncateIdempotent(text: string, maxLength: nat)
    ensures Truncate(Truncate(text, maxLength), maxLength) == Truncate(text, maxLength)
  {
    var r := Truncate(text, maxLength);
    if |text| > maxLength {
      assert r[..maxLength] + "..." == r;
    }
  }
}
