/** Option, the stock Some/None wrapper used for "no match" and for an unassigned field. */
module Wrappers {
  datatype Option<+T> = None | Some(value: T)
}

/**
 * Character classes the selection parser's regular expressions use, and
 * String.prototype.trim, after ECMA-262 (sections 12.2, 12.3, 22.1.3.32 and 22.2).
 */
module Text {

  /** LineTerminator (ECMA-262 section 12.3): the characters the pattern `.` refuses. */
  predicate IsLineTerminator(c: char) {
    c == '\n' || c == '\r' || c == '\U{2028}' || c == '\U{2029}'
  }

  /** The class `\w` without the `u` and `i` flags: [A-Za-z0-9_]. */
  predicate IsWordChar(c: char) {
    ('A' <= c <= 'Z') || ('a' <= c <= 'z') || ('0' <= c <= '9') || c == '_'
  }

  /**
   * What String.prototype.trim strips: WhiteSpace (tab, vertical tab, form feed,
   * zero-width no-break space and the Unicode category Zs) or LineTerminator.
   */
  predicate IsWhitespace(c: char) {
    || c == '\t' || c == '\U{000B}' || c == '\U{000C}' || c == '\U{FEFF}'
    || c == ' ' || c == '\U{00A0}' || c == '\U{1680}' || ('\U{2000}' <= c <= '\U{200A}')
    || c == '\U{202F}' || c == '\U{205F}' || c == '\U{3000}'
    || IsLineTerminator(c)
  }

  /** A string with no whitespace at either end: what trim returns. */
  predicate IsTrimmed(s: string) {
    s == [] || (!IsWhitespace(s[0]) && !IsWhitespace(s[|s| - 1]))
  }

  predicate AllWhitespace(s: string) {
    forall k | 0 <= k < |s| :: IsWhitespace(s[k])
  }

  /** End of the whitespace run of s that starts at i. */
  function LeadingFrom(s: string, i: nat): (k: nat)
    requires i <= |s|
    ensures i <= k <= |s|
    decreases |s| - i
  {
    if i == |s| || !IsWhitespace(s[i]) then i else LeadingFrom(s, i + 1)
  }

  /** The run LeadingFrom finds is all whitespace and stops at a character that is not. */
  lemma {:induction false} LeadingRun(s: string, i: nat)
    requires i <= |s|
    ensures var k := LeadingFrom(s, i);
      (forall p | i <= p < k :: IsWhitespace(s[p])) && (k == |s| || !IsWhitespace(s[k]))
    decreases |s| - i
  {
    if i < |s| && IsWhitespace(s[i]) {
      LeadingRun(s, i + 1);
    }
  }

  /** Start of the whitespace run of s that ends at j. */
  function TrailingTo(s: string, j: nat): (k: nat)
    requires j <= |s|
    ensures k <= j
  {
    if j == 0 || !IsWhitespace(s[j - 1]) then j else TrailingTo(s, j - 1)
  }

  /** The run TrailingTo finds is all whitespace and stops after a character that is not. */
  lemma {:induction false} TrailingRun(s: string, j: nat)
    requires j <= |s|
    ensures var k := TrailingTo(s, j);
      (forall p | k <= p < j :: IsWhitespace(s[p])) && (k == 0 || !IsWhitespace(s[k - 1]))
  {
    if 0 < j && IsWhitespace(s[j - 1]) {
      TrailingRun(s, j - 1);
    }
  }

  /** String.prototype.trim: s without its leading and trailing whitespace. */
  function Trim(s: string): (r: string)
    ensures IsTrimmed(r)
  {
    var a := LeadingFrom(s, 0);
    var b := TrailingTo(s, |s|);
    LeadingRun(s, 0);
    TrailingRun(s, |s|);
    if b <= a then [] else s[a..b]
  }

  /** Helper: equal strings trim alike. */
  lemma TrimSame(s: string, t: string)
    requires s == t
    ensures Trim(s) == Trim(t)
  {
  }

  /**
   * What trim keeps is the middle of s between two all-whitespace ends; with the result
   * being trimmed, that determines it.
   */
  lemma TrimIsMiddle(s: string)
    ensures exists a, b :: 0 <= a <= b <= |s| && Trim(s) == s[a..b]
              && AllWhitespace(s[..a]) && AllWhitespace(s[b..])
  {
    var a, b := LeadingFrom(s, 0), TrailingTo(s, |s|);
    LeadingRun(s, 0);
    TrailingRun(s, |s|);
    if b <= a {
      assert Trim(s) == s[a..a] && AllWhitespace(s[a..]);
    } else {
      assert Trim(s) == s[a..b];
    }
  }

  /** Trimming a trimmed string gives it back. */
  lemma TrimTrimmed(s: string)
    requires IsTrimmed(s)
    ensures Trim(s) == s
  {
    if s != [] {
      assert LeadingFrom(s, 0) == 0;
      assert TrailingTo(s, |s|) == |s|;
    }
  }

  /** One leading blank before a trimmed string is all trim removes. */
  lemma TrimAfterBlank(s: string)
    requires IsTrimmed(s)
    ensures Trim([' '] + s) == s
  {
    var t := [' '] + s;
    assert t[1..] == s;
    if s == [] {
      assert LeadingFrom(t, 1) == 1;
      assert TrailingTo(t, 0) == 0;
    } else {
      assert LeadingFrom(t, 1) == 1;
      assert TrailingTo(t, |t|) == |t|;
    }
  }

  /**
   * Trim of a string that starts with a non-whitespace character keeps that first
   * character and drops only trailing characters: its result is a non-empty prefix.
   */
  lemma TrimKeepsFirst(s: string)
    requires s != [] && !IsWhitespace(s[0])
    ensures 0 < |Trim(s)| <= |s| && Trim(s) == s[..|Trim(s)|]
  {
    assert LeadingFrom(s, 0) == 0;
    TrailingRun(s, |s|);
    assert TrailingTo(s, |s|) > 0;
  }
}
