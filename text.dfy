/** `String.prototype.trim` and the check the add-quote form applies to its
    two fields. */
module Text {

  /** The characters ECMAScript's `trim` removes: white space (tab, vertical
      tab, form feed, space, no-break space, byte-order mark and the other
      space separators) and line terminators. */
  predicate IsWhitespace(c: char)
  {
    c in {'\t', '\n', '\U{000B}', '\U{000C}', '\r', ' ', '\U{00A0}', '\U{1680}',
          '\U{2000}', '\U{2001}', '\U{2002}', '\U{2003}', '\U{2004}', '\U{2005}',
          '\U{2006}', '\U{2007}', '\U{2008}', '\U{2009}', '\U{200A}',
          '\U{2028}', '\U{2029}', '\U{202F}', '\U{205F}', '\U{3000}', '\U{FEFF}'}
  }

  /** The string has a character that is not white space. */
  predicate HasContent(s: string)
  {
    exists i :: 0 <= i < |s| && !IsWhitespace(s[i])
  }

  /** The first position at or after `i` that does not hold white space,
      or `|s|` when there is none. */
  function ContentStart(s: string, i: nat): (a: nat)
    requires i <= |s|
    ensures i <= a <= |s|
    ensures forall k :: i <= k < a ==> IsWhitespace(s[k])
    ensures a < |s| ==> !IsWhitespace(s[a])
    decreases |s| - i
  {
    if i == |s| || !IsWhitespace(s[i]) then i else ContentStart(s, i + 1)
  }

  /** The position just after the last character before `j` that is not
      white space, or 0 when there is none. */
  function ContentEnd(s: string, j: nat): (b: nat)
    requires j <= |s|
    ensures b <= j
    ensures forall k :: b <= k < j ==> IsWhitespace(s[k])
    ensures b > 0 ==> !IsWhitespace(s[b - 1])
  {
    if j == 0 || !IsWhitespace(s[j - 1]) then j else ContentEnd(s, j - 1)
  }

  /** `s.trim()`: the part of `s` from its first to its last character that
      is not white space; empty exactly when there is no such character. */
  function Trim(s: string): (r: string)
    ensures r == [] <==> !HasContent(s)
    ensures r != [] ==> !IsWhitespace(r[0]) && !IsWhitespace(r[|r| - 1])
    ensures r != [] ==> var a := ContentStart(s, 0);
      && a + |r| <= |s| && r == s[a..a + |r|]
      && (forall k :: 0 <= k < a ==> IsWhitespace(s[k]))
      && (forall k :: a + |r| <= k < |s| ==> IsWhitespace(s[k]))
  {
    var a := ContentStart(s, 0);
    var b := ContentEnd(s, |s|);
    if a < b then s[a..b] else []
  }

  /** Trimming twice is trimming once. */
  lemma TrimIdempotent(s: string)
    ensures Trim(Trim(s)) == Trim(s)
  {
    var r := Trim(s);
    if r != [] {
      assert ContentStart(r, 0) == 0;
      assert ContentEnd(r, |r|) == |r|;
    }
  }
}
