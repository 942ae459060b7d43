/** Character classes of the JavaScript language that the renderer's string
    handling depends on. */
module JsText {

  /** The white space that String.prototype.trimStart and parseInt skip, and
      that the regular-expression class \s matches: the WhiteSpace and
      LineTerminator code points of ECMAScript (TAB, VT, FF, SP, NBSP, ZWNBSP,
      the Unicode space separators, LF, CR, LS and PS). */
  predicate IsWhitespace(c: char) {
    || c == '\t' || c == '\n' || c == '\U{000B}' || c == '\U{000C}' || c == '\r' || c == ' '
    || c == '\U{00A0}' || c == '\U{1680}' || ('\U{2000}' <= c <= '\U{200A}')
    || c == '\U{2028}' || c == '\U{2029}' || c == '\U{202F}' || c == '\U{205F}'
    || c == '\U{3000}' || c == '\U{FEFF}'
  }

  /** ASCII letters to lower case, everything else unchanged: the case folding
      of a case-insensitive regular expression without the u flag never maps a
      non-ASCII character onto an ASCII one, so for ASCII patterns this is the
      whole of it. */
  function LowerAscii(c: char): (r: char)
    ensures 'A' <= c <= 'Z' ==> r as int == c as int + 32
    ensures !('A' <= c <= 'Z') ==> r == c
  {
    if 'A' <= c <= 'Z' then (c as int + 32) as char else c
  }

  /** Case folding never makes white space equal to anything else: white space
      is no ASCII letter, so it folds to itself. */
  lemma FoldedBlank(a: char, b: char)
    requires LowerAscii(a) == LowerAscii(b)
    ensures IsWhitespace(a) ==> IsWhitespace(b)
  {
    if IsWhitespace(a) {
      assert LowerAscii(a) == a;
      assert !('a' <= a <= 'z');
    }
  }

  /** `s` holds `word` at position `i`, letters compared without case. */
  predicate MatchesAt(s: string, i: nat, word: string) {
    i + |word| <= |s| && forall k :: 0 <= k < |word| ==> LowerAscii(s[i + k]) == LowerAscii(word[k])
  }

  /** The first position at or after `i` that is not white space (|s| if none). */
  function SkipWhitespace(s: string, i: nat): (r: nat)
    requires i <= |s|
    ensures i <= r <= |s|
    ensures forall k :: i <= k < r ==> IsWhitespace(s[k])
    ensures r < |s| ==> !IsWhitespace(s[r])
    decreases |s| - i
  {
    if i < |s| && IsWhitespace(s[i]) then SkipWhitespace(s, i + 1) else i
  }
}
