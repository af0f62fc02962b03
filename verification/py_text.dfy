/** Python's `str.rstrip()` with no argument, as the text-mode containers
    use it. */
module PyText {

  /** The characters for which Python's `str.isspace()` holds: ASCII tab,
      LF, VT, FF, CR, the separators 0x1C-0x1F, space, and the Unicode
      spaces and line/paragraph separators. U+200B (zero width space) is
      not among them. */
  predicate IsSpace(c: char) {
    || ('\t' <= c <= '\r')
    || ('\U{1C}' <= c <= '\U{1F}')
    || c == ' ' || c == '\U{85}' || c == '\U{A0}' || c == '\U{1680}'
    || ('\U{2000}' <= c <= '\U{200A}')
    || c == '\U{2028}' || c == '\U{2029}' || c == '\U{202F}' || c == '\U{205F}'
    || c == '\U{3000}'
  }

  /** `s.rstrip()`: the longest prefix of `s` whose removed tail is all
      whitespace. */
  function RStrip(s: string): (r: string)
    ensures |r| <= |s| && r == s[..|r|]
    ensures |r| == 0 || !IsSpace(r[|r| - 1])
    ensures forall k :: |r| <= k < |s| ==> IsSpace(s[k])
    decreases |s|
  {
    if |s| > 0 && IsSpace(s[|s| - 1]) then RStrip(s[..|s| - 1]) else s
  }

  /** Stripping a text that ends in non-whitespace, followed by a tail of
      whitespace, gives back that text. */
  lemma {:induction false} RStripOfPadded(s: string, tail: string)
    requires |s| == 0 || !IsSpace(s[|s| - 1])
    requires forall k :: 0 <= k < |tail| ==> IsSpace(tail[k])
    ensures RStrip(s + tail) == s
    decreases |tail|
  {
    if |tail| == 0 {
      assert s + tail == s;
    } else {
      var u := s + tail;
      assert u[..|u| - 1] == s + tail[..|tail| - 1];
      RStripOfPadded(s, tail[..|tail| - 1]);
    }
  }
}
