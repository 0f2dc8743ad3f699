/**
 * The two JavaScript string builtins that the guess pipeline applies before
 * normalizing: String.prototype.trim and String.prototype.toLowerCase.
 */
module Text {

  /** The characters String.prototype.trim removes: ECMAScript's WhiteSpace
      (tab, vertical tab, form feed, the Zs space separators, U+FEFF) and
      LineTerminator (LF, CR, U+2028, U+2029). None of them is a capital,
      so lower-casing leaves white space alone. */
  predicate IsWhiteSpace(c: char)
    ensures IsWhiteSpace(c) ==> !IsCapital(c)
  {
    c == '\t' || c == '\n' || c == '\U{000B}' || c == '\U{000C}' || c == '\r' || c == ' '
    || c == '\U{00A0}' || c == '\U{1680}' || ('\U{2000}' <= c <= '\U{200A}')
    || c == '\U{2028}' || c == '\U{2029}' || c == '\U{202F}' || c == '\U{205F}'
    || c == '\U{3000}' || c == '\U{FEFF}'
  }

  predicate AllWhiteSpace(s: string) {
    forall i :: 0 <= i < |s| ==> IsWhiteSpace(s[i])
  }

  /** The number of white-space characters s starts with. */
  function LeadingSpace(s: string): (n: nat)
    ensures n <= |s|
    ensures forall i :: 0 <= i < n ==> IsWhiteSpace(s[i])
    ensures n < |s| ==> !IsWhiteSpace(s[n])
  {
    if s == [] || !IsWhiteSpace(s[0]) then 0
    else
      var n := 1 + LeadingSpace(s[1..]);
      assert forall i :: 1 <= i < n ==> s[i] == s[1..][i - 1];
      n
  }

  /** The number of white-space characters s ends with. */
  function TrailingSpace(s: string): (n: nat)
    ensures n <= |s|
    ensures forall i :: |s| - n <= i < |s| ==> IsWhiteSpace(s[i])
    ensures n < |s| ==> !IsWhiteSpace(s[|s| - n - 1])
  {
    if s == [] || !IsWhiteSpace(s[|s| - 1]) then 0
    else
      var n := 1 + TrailingSpace(s[..|s| - 1]);
      assert forall i :: |s| - n <= i < |s| - 1 ==> s[i] == s[..|s| - 1][i];
      n
  }

  /** String.prototype.trim: s without its leading and trailing white
      space. Neither end of the result is white space, and it is empty
      exactly when s is all white space; TrimSplit and TrimUnique state
      what is around it. */
  function Trim(s: string): (r: string)
    ensures |r| <= |s|
    ensures r == [] || (!IsWhiteSpace(r[0]) && !IsWhiteSpace(r[|r| - 1]))
    ensures r == [] <==> AllWhiteSpace(s)
  {
    var lead := LeadingSpace(s);
    if lead == |s| then []
    else
      var trail := TrailingSpace(s);
      assert trail < |s| - lead;
      s[lead..|s| - trail]
  }

  lemma AllWhiteSpaceAppend(a: string, b: string)
    ensures AllWhiteSpace(a + b) <==> AllWhiteSpace(a) && AllWhiteSpace(b)
  {
    if AllWhiteSpace(a) && AllWhiteSpace(b) {
      forall i | 0 <= i < |a + b| ensures IsWhiteSpace((a + b)[i]) {
        if i >= |a| { assert (a + b)[i] == b[i - |a|]; }
      }
    }
    if AllWhiteSpace(a + b) {
      forall i | 0 <= i < |a| ensures IsWhiteSpace(a[i]) {
        assert (a + b)[i] == a[i];
      }
      forall i | 0 <= i < |b| ensures IsWhiteSpace(b[i]) {
        assert (a + b)[|a| + i] == b[i];
      }
    }
  }

  /** Every string is (white space) + its trimmed form + (white space). */
  lemma TrimSplit(s: string) returns (pre: string, post: string)
    ensures s == pre + Trim(s) + post
    ensures AllWhiteSpace(pre) && AllWhiteSpace(post)
  {
    var lead := LeadingSpace(s);
    if lead == |s| {
      pre, post := s, [];
      WhitePrefix(s, lead);
      assert s[..lead] == s;
      assert s + [] + [] == s;
    } else {
      var trail := TrailingSpace(s);
      pre, post := s[..lead], s[|s| - trail..];
      WhitePrefix(s, lead);
      WhiteSuffix(s, |s| - trail);
      SplitThree(s, lead, |s| - trail);
    }
  }

  lemma WhitePrefix(s: string, n: int)
    requires 0 <= n <= |s| && forall i :: 0 <= i < n ==> IsWhiteSpace(s[i])
    ensures AllWhiteSpace(s[..n])
  {
    assert forall i :: 0 <= i < n ==> s[..n][i] == s[i];
  }

  lemma WhiteSuffix(s: string, m: int)
    requires 0 <= m <= |s| && forall i :: m <= i < |s| ==> IsWhiteSpace(s[i])
    ensures AllWhiteSpace(s[m..])
  {
    assert forall i :: 0 <= i < |s| - m ==> s[m..][i] == s[m + i];
  }

  lemma SplitThree(s: string, i: int, j: int)
    requires 0 <= i <= j <= |s|
    ensures s == s[..i] + s[i..j] + s[j..]
  {
  }

  /** Trim is the only way to split s as (white space) + r + (white space)
      with r empty or not white space at either end. */
  lemma TrimUnique(s: string, pre: string, r: string, post: string)
    requires s == pre + r + post && AllWhiteSpace(pre) && AllWhiteSpace(post)
    requires r == [] || (!IsWhiteSpace(r[0]) && !IsWhiteSpace(r[|r| - 1]))
    ensures Trim(s) == r
  {
    if r == [] {
      AllWhiteSpaceAppend(pre, r);
      AllWhiteSpaceAppend(pre + r, post);
    } else {
      LeadingSpaceOf(pre, r + post);
      TrailingSpaceOf(pre + r, post);
      Middle(pre, r, post);
      assert s == pre + (r + post);
    }
  }

  lemma LeadingSpaceOf(pre: string, rest: string)
    requires AllWhiteSpace(pre) && rest != [] && !IsWhiteSpace(rest[0])
    ensures LeadingSpace(pre + rest) == |pre|
  {
    var s := pre + rest;
    var n := LeadingSpace(s);
    assert s[|pre|] == rest[0];
  }

  lemma TrailingSpaceOf(rest: string, post: string)
    requires AllWhiteSpace(post) && rest != [] && !IsWhiteSpace(rest[|rest| - 1])
    ensures TrailingSpace(rest + post) == |post|
  {
    var s := rest + post;
    var n := TrailingSpace(s);
    assert s[|rest| - 1] == rest[|rest| - 1];
  }

  lemma Middle(pre: string, r: string, post: string)
    ensures (pre + r + post)[|pre|..|pre| + |r|] == r
  {
  }

  lemma Regroup(a: string, m: string, b: string, c: string, d: string, e: string)
    requires m == b + c + d
    ensures a + m + e == (a + b) + c + (d + e)
  {
  }

  /** A padded string is (white space) + the trimmed form + (white space). */
  lemma PaddedSplit(s: string, pre: string, post: string) returns (p: string, q: string)
    requires AllWhiteSpace(pre) && AllWhiteSpace(post)
    ensures pre + s + post == p + Trim(s) + q
    ensures AllWhiteSpace(p) && AllWhiteSpace(q)
  {
    var p0, q0 := TrimSplit(s);
    p, q := pre + p0, q0 + post;
    AllWhiteSpaceAppend(pre, p0);
    AllWhiteSpaceAppend(q0, post);
    Regroup(pre, s, p0, Trim(s), q0, post);
  }

  /** White space around a string does not change what it trims to. */
  lemma TrimPadded(s: string, pre: string, post: string)
    requires AllWhiteSpace(pre) && AllWhiteSpace(post)
    ensures Trim(pre + s + post) == Trim(s)
  {
    var p, q := PaddedSplit(s, pre, post);
    TrimUnique(pre + s + post, p, Trim(s), q);
  }

  /** The capitals the model lower-cases: ASCII A..Z and the Latin-1
      capitals U+00C0..U+00DE except the multiplication sign U+00D7. */
  predicate IsCapital(c: char) {
    'A' <= c <= 'Z' || ('\U{00C0}' <= c <= '\U{00DE}' && c != '\U{00D7}')
  }

  /** Their small forms, each 32 code points above: a..z and U+00E0..U+00FE
      except the division sign U+00F7. */
  predicate IsSmall(c: char) {
    'a' <= c <= 'z' || ('\U{00E0}' <= c <= '\U{00FE}' && c != '\U{00F7}')
  }

  /** toLowerCase on one character, for the characters the model covers: a
      capital becomes the small letter 32 code points above it, and every
      other character stays as it is. */
  function LowerChar(c: char): (r: char)
    ensures !IsCapital(c) ==> r == c
    ensures IsCapital(c) ==> IsSmall(r) && r as int == c as int + 32
    ensures !IsCapital(r)
  {
    if IsCapital(c) then (c as int + 32) as char else c
  }

  /** Lower-casing keeps white space and digits, keeps ASCII within ASCII,
      and yields a..z exactly from the ASCII letters. */
  lemma LowerCharClasses(c: char)
    ensures IsWhiteSpace(LowerChar(c)) <==> IsWhiteSpace(c)
    ensures ('a' <= LowerChar(c) <= 'z') <==> ('a' <= c <= 'z' || 'A' <= c <= 'Z')
    ensures ('0' <= LowerChar(c) <= '9') <==> ('0' <= c <= '9')
    ensures LowerChar(c) < '\U{0080}' <==> c < '\U{0080}'
  {
  }

  /** toUpperCase on the same characters: a small letter becomes its
      capital, everything else stays. */
  function UpperChar(c: char): (r: char)
    ensures !IsSmall(c) ==> r == c
    ensures IsSmall(c) ==> IsCapital(r)
  {
    if IsSmall(c) then (c as int - 32) as char else c
  }

  /** Lower-casing the upper-case form gives the lower-case form, and a
      capital is the upper-case form of its lower-case form. */
  lemma LowerUpperChar(c: char)
    ensures LowerChar(UpperChar(c)) == LowerChar(c)
    ensures IsCapital(c) ==> UpperChar(LowerChar(c)) == c
  {
    if IsSmall(c) {
      assert UpperChar(c) as int + 32 == c as int;
    }
  }

  /** toUpperCase, character by character. */
  function Upper(s: string): (r: string)
    ensures |r| == |s|
    ensures forall i :: 0 <= i < |s| ==> r[i] == UpperChar(s[i])
  {
    if s == [] then [] else [UpperChar(s[0])] + Upper(s[1..])
  }

  /** A string and its upper-case form lower-case alike. */
  lemma LowerOfUpper(s: string)
    ensures Lower(Upper(s)) == Lower(s)
  {
    forall i | 0 <= i < |s| ensures Lower(Upper(s))[i] == Lower(s)[i] {
      LowerUpperChar(s[i]);
    }
  }

  /** String.prototype.toLowerCase, character by character. */
  function Lower(s: string): (r: string)
    ensures |r| == |s|
    ensures forall i :: 0 <= i < |s| ==> r[i] == LowerChar(s[i])
  {
    if s == [] then [] else [LowerChar(s[0])] + Lower(s[1..])
  }

  /** Text without capitals lower-cases to itself. */
  lemma LowerOfUncapitalized(s: string)
    requires forall i :: 0 <= i < |s| ==> !IsCapital(s[i])
    ensures Lower(s) == s
  {
  }

  lemma {:induction false} LowerAppend(a: string, b: string)
    ensures Lower(a + b) == Lower(a) + Lower(b)
  {
    if a == [] {
      assert a + b == b;
    } else {
      assert (a + b)[1..] == a[1..] + b;
      LowerAppend(a[1..], b);
    }
  }

  /** Lower-casing keeps white space white space, and nothing else becomes white space. */
  lemma LowerKeepsWhiteSpace(s: string)
    ensures AllWhiteSpace(Lower(s)) <==> AllWhiteSpace(s)
  {
    if AllWhiteSpace(Lower(s)) {
      forall i | 0 <= i < |s| ensures IsWhiteSpace(s[i]) { assert IsWhiteSpace(Lower(s)[i]); }
    }
  }
}
