/** The string built-ins the roster's validation relies on:
    `String.prototype.trim` and `String.prototype.toLowerCase`. */
module Text {

  /** ECMAScript WhiteSpace and LineTerminator code points. These are exactly
      the characters `trim()` strips and the regular-expression class `\s`
      matches, so `\S` is the negation of this predicate. */
  predicate IsSpace(c: char) {
    c == ' ' || ('\t' <= c <= '\r') || c == '\U{00A0}' || c == '\U{1680}'
    || ('\U{2000}' <= c <= '\U{200A}') || c == '\U{2028}' || c == '\U{2029}'
    || c == '\U{202F}' || c == '\U{205F}' || c == '\U{3000}' || c == '\U{FEFF}'
  }

  /** Every character is white space; the empty string is blank. */
  ghost predicate Blank(s: string) {
    forall i :: 0 <= i < |s| ==> IsSpace(s[i])
  }

  /** Blank strings are closed under dropping the first or last character,
      and a string is blank when its first (last) character is white space
      and the rest is blank. */
  lemma BlankSplit(s: string)
    requires s != []
    ensures Blank(s) <==> IsSpace(s[0]) && Blank(s[1..])
    ensures Blank(s) <==> IsSpace(s[|s| - 1]) && Blank(s[..|s| - 1])
  {
    assert forall i :: 0 <= i < |s| - 1 ==> s[1..][i] == s[i + 1] && s[..|s| - 1][i] == s[i];
  }

  /** Drops leading white space: the result is a suffix of `s` that does
      not start with white space. */
  function TrimStart(s: string): (r: string)
    ensures |r| <= |s| && r == s[|s| - |r|..]
    ensures Blank(s[..|s| - |r|])
    ensures r != [] ==> !IsSpace(r[0])
  {
    if s != [] && IsSpace(s[0]) then
      var r := TrimStart(s[1..]);
      var head := s[..|s| - |r|];
      assert head[0] == s[0] && head[1..] == s[1..][..|s| - 1 - |r|];
      BlankSplit(head);
      r
    else s
  }

  /** Drops trailing white space: the result is a prefix of `s` that does
      not end with white space. */
  function TrimEnd(s: string): (r: string)
    ensures |r| <= |s| && r == s[..|r|]
    ensures Blank(s[|r|..])
    ensures r != [] ==> !IsSpace(r[|r| - 1])
  {
    if s != [] && IsSpace(s[|s| - 1]) then
      var r := TrimEnd(s[..|s| - 1]);
      var tail := s[|r|..];
      assert tail[|tail| - 1] == s[|s| - 1] && tail[..|tail| - 1] == s[..|s| - 1][|r|..];
      BlankSplit(tail);
      r
    else s
  }

  /** `s.trim()`: a slice of `s` with only white space before and after
      it, which neither starts nor ends with white space. */
  function Trim(s: string): (r: string)
    ensures exists i :: 0 <= i <= |s| - |r| && r == s[i..i + |r|] && Blank(s[..i]) && Blank(s[i + |r|..])
    ensures r != [] ==> !IsSpace(r[0]) && !IsSpace(r[|r| - 1])
  {
    var t := TrimStart(s);
    var r := TrimEnd(t);
    TrimSlice(s, t, r);
    r
  }

  /** The facts behind `Trim`'s contract: the slice starts where the
      leading white space ends. */
  lemma TrimSlice(s: string, t: string, r: string)
    requires |t| <= |s| && t == s[|s| - |t|..] && Blank(s[..|s| - |t|])
    requires |r| <= |t| && r == t[..|r|] && Blank(t[|r|..])
    requires t != [] ==> !IsSpace(t[0])
    requires r != [] ==> !IsSpace(r[|r| - 1])
    ensures var i := |s| - |t|; i + |r| <= |s| && r == s[i..i + |r|] && Blank(s[..i]) && Blank(s[i + |r|..])
    ensures r != [] ==> !IsSpace(r[0]) && !IsSpace(r[|r| - 1])
  {
    if r != [] {
      assert r[0] == t[0];
    }
    var i := |s| - |t|;
    assert r == s[i..i + |r|];
    assert s[i + |r|..] == t[|r|..];
  }

  /** Leading-white-space removal empties exactly the blank strings. */
  lemma {:induction false} TrimStartEmptyIff(s: string)
    ensures TrimStart(s) == [] <==> Blank(s)
  {
    if s != [] {
      BlankSplit(s);
      if IsSpace(s[0]) {
        TrimStartEmptyIff(s[1..]);
      }
    }
  }

  /** Trailing-white-space removal empties exactly the blank strings. */
  lemma {:induction false} TrimEndEmptyIff(s: string)
    ensures TrimEnd(s) == [] <==> Blank(s)
  {
    if s != [] {
      BlankSplit(s);
      if IsSpace(s[|s| - 1]) {
        TrimEndEmptyIff(s[..|s| - 1]);
      }
    }
  }

  /** `!s.trim()` holds exactly when the string is blank. */
  lemma TrimEmptyIff(s: string)
    ensures Trim(s) == [] <==> Blank(s)
  {
    var t := TrimStart(s);
    TrimStartEmptyIff(s);
    TrimEndEmptyIff(t);
    if t != [] {
      assert !IsSpace(t[0]);
    }
  }

  /** `toLowerCase` on one character, restricted to ASCII letters: exactly
      the upper-case letters change, and no upper-case letter comes out. */
  function LowerChar(c: char): (r: char)
    ensures r != c <==> 'A' <= c <= 'Z'
    ensures !('A' <= r <= 'Z')
    ensures 'a' <= r <= 'z' <==> 'A' <= c <= 'Z' || 'a' <= c <= 'z'
  {
    if 'A' <= c <= 'Z' then (c as int - 'A' as int + 'a' as int) as char else c
  }

  /** Two characters lower to the same character exactly when they are
      equal or are the upper- and lower-case forms of one ASCII letter. */
  lemma LowerCharSame(c: char, d: char)
    ensures LowerChar(c) == LowerChar(d) <==>
      c == d || ('A' <= c <= 'Z' && d as int == c as int + 32) || ('A' <= d <= 'Z' && c as int == d as int + 32)
  {
  }

  /** `s.toLowerCase()`: each character lowered in place, length kept. */
  function Lower(s: string): (r: string)
    ensures |r| == |s|
    ensures forall i :: 0 <= i < |s| ==> r[i] == LowerChar(s[i])
  {
    if s == [] then [] else [LowerChar(s[0])] + Lower(s[1..])
  }

  /** `a.toLowerCase() === b.toLowerCase()`. */
  predicate SameIgnoringCase(a: string, b: string) {
    Lower(a) == Lower(b)
  }

  /** Two strings are equal ignoring case exactly when they have the same
      length and agree letter by letter once both letters are lowered. */
  lemma SameIgnoringCaseIff(a: string, b: string)
    ensures SameIgnoringCase(a, b) <==> |a| == |b| && forall i :: 0 <= i < |a| ==> LowerChar(a[i]) == LowerChar(b[i])
  {
    if |a| == |b| && forall i :: 0 <= i < |a| ==> LowerChar(a[i]) == LowerChar(b[i]) {
      assert forall i :: 0 <= i < |a| ==> Lower(a)[i] == Lower(b)[i];
    }
  }
}
