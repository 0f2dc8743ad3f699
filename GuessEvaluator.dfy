/**
 * The guess check of script.js: normalizeString (script.js:272-275) and the
 * comparison in checkGuess (script.js:254-269).
 *
 * normalizeString is three stages: decompose to Unicode Normalization Form D,
 * delete the combining marks U+0300..U+036F, delete everything outside
 * [a-z0-9]. Each stage works character by character, so each is a
 * homomorphism over string concatenation, and most proofs below go through
 * that fact.
 */
module GuessEvaluator {
  import opened Wrappers
  import opened Text

  const Grave := '\U{0300}'
  const Acute := '\U{0301}'
  const Circumflex := '\U{0302}'
  const Tilde := '\U{0303}'
  const Diaeresis := '\U{0308}'
  const RingAbove := '\U{030A}'
  const Cedilla := '\U{0327}'

  predicate IsCombiningMark(c: char) {
    '\U{0300}' <= c <= '\U{036F}'
  }

  predicate IsAscii(c: char) {
    c < '\U{0080}'
  }

  /** The characters the last stage keeps: [a-z0-9]. */
  predicate IsLowerAlnum(c: char) {
    'a' <= c <= 'z' || '0' <= c <= '9'
  }

  predicate IsAsciiLetter(c: char) {
    'a' <= c <= 'z' || 'A' <= c <= 'Z'
  }

  /** The decomposable letters of Latin-1 at offset k of either half
      (capitals U+00C0..U+00DF, small letters U+00E0..U+00FF, which share one
      layout): the capital base letter and the combining mark. Offsets 6, 16,
      23, 24, 30 and 31 (Æ Ð × Ø Þ ß and æ ð ÷ ø þ, and ÿ, which is handled
      on its own) have no canonical decomposition. */
  function LatinLetter(k: int): (d: Option<(char, char)>)
    requires 0 <= k < 32
    ensures d.Some? ==> 'A' <= d.value.0 <= 'Z' && IsCombiningMark(d.value.1)
  {
    if k <= 5 then            // À Á Â Ã Ä Å
      Some(('A', if k == 0 then Grave else if k == 1 then Acute else if k == 2 then Circumflex
                 else if k == 3 then Tilde else if k == 4 then Diaeresis else RingAbove))
    else if k == 7 then       // Ç
      Some(('C', Cedilla))
    else if 8 <= k <= 11 then   // È É Ê Ë
      Some(('E', FourMarks(k - 8)))
    else if 12 <= k <= 15 then  // Ì Í Î Ï
      Some(('I', FourMarks(k - 12)))
    else if k == 17 then      // Ñ
      Some(('N', Tilde))
    else if 18 <= k <= 22 then  // Ò Ó Ô Õ Ö
      Some(('O', if k == 18 then Grave else if k == 19 then Acute else if k == 20 then Circumflex
                 else if k == 21 then Tilde else Diaeresis))
    else if 25 <= k <= 28 then  // Ù Ú Û Ü
      Some(('U', FourMarks(k - 25)))
    else if k == 29 then      // Ý
      Some(('Y', Acute))
    else
      None
  }

  /** The marks of the E, I and U rows, in code point order. */
  function FourMarks(j: int): (m: char)
    ensures IsCombiningMark(m)
  {
    if j == 0 then Grave else if j == 1 then Acute else if j == 2 then Circumflex else Diaeresis
  }

  /** Canonical decomposition (Unicode Normalization Form D) of one character,
      for the precomposed letters of Latin-1 (U+00C0..U+00FF); every other
      character is its own decomposition in this model. A small letter
      decomposes to the small base letter and the same mark as its capital. */
  function Decompose(c: char): (r: string)
    ensures |r| == 1 || |r| == 2
    ensures |r| == 1 ==> r == [c]
    ensures |r| == 2 ==> IsAsciiLetter(r[0]) && IsCombiningMark(r[1])
    ensures |r| == 2 ==> '\U{00C0}' <= c <= '\U{00FF}'
  {
    if c == '\U{00FF}' then  // ÿ
      ['y', Diaeresis]
    else if '\U{00C0}' <= c <= '\U{00FF}' then
      var small := c >= '\U{00E0}';
      match LatinLetter(c as int - if small then 0xE0 else 0xC0)
      case None => [c]
      case Some((base, mark)) => [if small then LowerChar(base) else base, mark]
    else
      [c]
  }

  /** The first stage of normalizeString (script.js:273), decomposition to
      Normalization Form D: every character replaced by its decomposition.
      Canonical reordering of adjacent marks is not modelled; it only permutes
      combining marks, all of which the later stages delete. */
  function Nfd(s: string): (r: string)
    ensures |r| >= |s|
    ensures (forall i :: 0 <= i < |s| ==> IsAscii(s[i])) ==> r == s
  {
    if s == [] then [] else Decompose(s[0]) + Nfd(s[1..])
  }

  /** The characters of s that satisfy keep, in their order: what
      String.prototype.replace with a global character-class pattern and ""
      leaves behind. */
  function Filter(s: string, keep: char -> bool): (r: string)
    ensures |r| <= |s|
    ensures forall i :: 0 <= i < |r| ==> keep(r[i])
    ensures forall c {:trigger multiset(r)[c]} :: keep(c) ==> multiset(r)[c] == multiset(s)[c]
  {
    if s == [] then []
    else
      assert s == [s[0]] + s[1..];
      if keep(s[0]) then [s[0]] + Filter(s[1..], keep) else Filter(s[1..], keep)
  }

  predicate IsNotMark(c: char) {
    !IsCombiningMark(c)
  }

  /** The second stage of normalizeString (script.js:273): delete the
      combining marks U+0300..U+036F. */
  function StripMarks(s: string): (r: string)
    ensures forall i :: 0 <= i < |r| ==> !IsCombiningMark(r[i])
    ensures forall c {:trigger multiset(r)[c]} :: !IsCombiningMark(c) ==> multiset(r)[c] == multiset(s)[c]
  {
    Filter(s, IsNotMark)
  }

  /** The third stage of normalizeString (script.js:274): delete every
      character outside [a-z0-9]. */
  function KeepLowerAlnum(s: string): (r: string)
    ensures forall i :: 0 <= i < |r| ==> IsLowerAlnum(r[i])
    ensures forall c {:trigger multiset(r)[c]} :: IsLowerAlnum(c) ==> multiset(r)[c] == multiset(s)[c]
  {
    Filter(s, IsLowerAlnum)
  }

  /** normalizeString (script.js:272-275): the result is made of [a-z0-9]
      only and is never longer than the decomposed input. */
  function Normalize(s: string): (r: string)
    ensures forall i :: 0 <= i < |r| ==> IsLowerAlnum(r[i])
    ensures |r| <= |Nfd(s)|
  {
    KeepLowerAlnum(StripMarks(Nfd(s)))
  }

  /** The comparison of checkGuess (script.js:255-262): the guess is trimmed
      and lower-cased, the title only lower-cased, then both are normalized.
      The trim makes no difference: white space normalizes away anyway. */
  predicate Matches(guess: string, title: string)
    ensures Matches(guess, title) <==> Normalize(Lower(guess)) == Normalize(Lower(title))
  {
    TrimIrrelevant(guess);
    Normalize(Lower(Trim(guess))) == Normalize(Lower(title))
  }

  // ---------------------------------------------------------------------------
  // Each stage distributes over concatenation.

  lemma {:induction false} NfdAppend(a: string, b: string)
    ensures Nfd(a + b) == Nfd(a) + Nfd(b)
  {
    if a == [] {
      assert a + b == b;
    } else {
      assert (a + b)[1..] == a[1..] + b;
      NfdAppend(a[1..], b);
    }
  }

  lemma {:induction false} FilterAppend(a: string, b: string, keep: char -> bool)
    ensures Filter(a + b, keep) == Filter(a, keep) + Filter(b, keep)
  {
    if a == [] {
      assert a + b == b;
    } else {
      assert (a + b)[1..] == a[1..] + b;
      FilterAppend(a[1..], b, keep);
    }
  }

  lemma NormalizeAppend(a: string, b: string)
    ensures Normalize(a + b) == Normalize(a) + Normalize(b)
  {
    NfdAppend(a, b);
    FilterAppend(Nfd(a), Nfd(b), IsNotMark);
    FilterAppend(StripMarks(Nfd(a)), StripMarks(Nfd(b)), IsLowerAlnum);
  }

  lemma NormalizeAppend3(a: string, b: string, c: string)
    ensures Normalize(a + b + c) == Normalize(a) + Normalize(b) + Normalize(c)
  {
    NormalizeAppend(a + b, c);
    NormalizeAppend(a, b);
  }

  // ---------------------------------------------------------------------------
  // Properties of normalizeString.

  /** Filtering a string whose every character is kept changes nothing. */
  lemma FilterKeepsAll(s: string, keep: char -> bool)
    requires forall i :: 0 <= i < |s| ==> keep(s[i])
    ensures Filter(s, keep) == s
  {
    if s != [] {
      FilterKeepsAll(s[1..], keep);
    }
  }

  /** A string of [a-z0-9] is its own normal form: decomposition, mark
      stripping and the final filter all leave it alone. */
  lemma NormalizeFixesLowerAlnum(s: string)
    requires forall i :: 0 <= i < |s| ==> IsLowerAlnum(s[i])
    ensures Normalize(s) == s
  {
    assert forall i :: 0 <= i < |s| ==> IsAscii(s[i]);
    assert Nfd(s) == s;
    FilterKeepsAll(s, IsNotMark);
    FilterKeepsAll(s, IsLowerAlnum);
  }

  /** normalizeString is idempotent, since its output is made of [a-z0-9]. */
  lemma NormalizeIdempotent(s: string)
    ensures Normalize(Normalize(s)) == Normalize(s)
  {
    NormalizeFixesLowerAlnum(Normalize(s));
  }

  /** A string of white space normalizes to nothing. */
  lemma {:induction false} NormalizeWhiteSpace(s: string)
    requires AllWhiteSpace(s)
    ensures Normalize(s) == []
  {
    if s != [] {
      assert s == [s[0]] + s[1..];
      NormalizeAppend([s[0]], s[1..]);
      WhiteSpaceVanishes(s[0]);
      NormalizeWhiteSpace(s[1..]);
    }
  }

  lemma WhiteSpaceVanishes(c: char)
    requires IsWhiteSpace(c)
    ensures Normalize([c]) == []
  {
    NormalizeSingle(c);
    assert Decompose(c) == [c];
    assert StripMarks([c]) == [c];
  }

  /** Trimming the guess before lower-casing it makes no difference to the
      normalized guess. */
  lemma TrimIrrelevant(s: string)
    ensures Normalize(Lower(Trim(s))) == Normalize(Lower(s))
  {
    var pre, post := TrimSplit(s);
    LowerAppend(pre + Trim(s), post);
    LowerAppend(pre, Trim(s));
    LowerKeepsWhiteSpace(pre);
    LowerKeepsWhiteSpace(post);
    NormalizeAppend3(Lower(pre), Lower(Trim(s)), Lower(post));
    NormalizeWhiteSpace(Lower(pre));
    NormalizeWhiteSpace(Lower(post));
  }

  // ---------------------------------------------------------------------------
  // What a guess is insensitive to.

  /** Guesses (and titles) that agree up to case are judged alike. */
  lemma MatchesIgnoresCase(guess1: string, guess2: string, title1: string, title2: string)
    requires Lower(guess1) == Lower(guess2) && Lower(title1) == Lower(title2)
    ensures Matches(guess1, title1) <==> Matches(guess2, title2)
  {
  }

  /** A guess typed in capitals wins or loses as it does in any other case. */
  lemma MatchesIgnoresUpperCase(guess: string, title: string)
    ensures Matches(Upper(guess), title) <==> Matches(guess, title)
  {
    LowerOfUpper(guess);
  }

  /** A character that vanishes in normalization once lower-cased:
      white space, punctuation, combining marks, and any character the last
      stage rejects. */
  predicate Vanishes(c: char) {
    Normalize([LowerChar(c)]) == []
  }

  lemma NormalizeSingle(c: char)
    ensures Normalize([c]) == KeepLowerAlnum(StripMarks(Decompose(c)))
  {
    assert [c][1..] == [];
    assert Nfd([c]) == Decompose(c) + Nfd([]);
    assert Decompose(c) + [] == Decompose(c);
  }

  /** Every ASCII character other than a letter or a digit vanishes, and so
      does every combining mark U+0300..U+036F. */
  lemma VanishingCharacters(c: char)
    requires (IsAscii(c) && !IsAsciiLetter(c) && !('0' <= c <= '9')) || IsCombiningMark(c) || IsWhiteSpace(c)
    ensures Vanishes(c)
  {
    if IsWhiteSpace(c) {
      WhiteSpaceVanishes(LowerChar(c));
    } else {
      NormalizeSingle(LowerChar(c));
      assert Decompose(LowerChar(c)) == [LowerChar(c)];
    }
  }

  /** Inserting a vanishing character (a space, a punctuation sign, a
      combining mark) anywhere in the guess does not change the verdict. */
  lemma MatchesIgnoresVanishing(before: string, c: char, after: string, title: string)
    requires Vanishes(c)
    ensures Matches(before + [c] + after, title) <==> Matches(before + after, title)
  {
    NormalizeLowerInsert(before, c, after);
    DropEmpty(Normalize(Lower(before)), Normalize([LowerChar(c)]), Normalize(Lower(after)));
  }

  lemma DropEmpty(x: string, z: string, y: string)
    requires z == []
    ensures x + z + y == x + y
  {
  }

  /** Normalize(Lower(.)) of a string with one character inserted is the
      normalized prefix, the normalized character and the normalized suffix. */
  lemma NormalizeLowerInsert(before: string, c: char, after: string)
    ensures Normalize(Lower(before + [c] + after))
         == Normalize(Lower(before)) + Normalize([LowerChar(c)]) + Normalize(Lower(after))
    ensures Normalize(Lower(before + after)) == Normalize(Lower(before)) + Normalize(Lower(after))
  {
    LowerAppend(before + [c], after);
    LowerAppend(before, [c]);
    LowerAppend(before, after);
    assert Lower([c]) == [LowerChar(c)];
    NormalizeAppend3(Lower(before), [LowerChar(c)], Lower(after));
    NormalizeAppend(Lower(before), Lower(after));
  }

  /** Lower-casing commutes with decomposing a Latin-1 letter: the small form
      of a precomposed capital decomposes to the small base letter and the
      same mark. */
  lemma LowerDecompose(c: char)
    requires |Decompose(c)| == 2
    ensures Decompose(LowerChar(c)) == [LowerChar(Decompose(c)[0]), Decompose(c)[1]]
  {
    if c != '\U{00FF}' && c < '\U{00E0}' {
      var k := c as int - 0xC0;
      assert LatinLetter(k).Some?;
      assert LowerChar(c) as int - 0xE0 == k;
    }
  }

  /** A precomposed letter normalizes as its base letter alone. */
  lemma NormalizeDecomposable(c: char)
    requires |Decompose(c)| == 2
    ensures Normalize([c]) == KeepLowerAlnum([Decompose(c)[0]])
  {
    var d := Decompose(c);
    NormalizeSingle(c);
    assert d == [d[0]] + [d[1]];
    FilterAppend([d[0]], [d[1]], IsNotMark);
    assert StripMarks([d[1]]) == [];
    assert StripMarks([d[0]]) == [d[0]];
  }

  /** An accented Latin-1 letter and its base letter are judged alike. */
  lemma MatchesIgnoresDiacritic(before: string, c: char, after: string, title: string)
    requires |Decompose(c)| == 2
    ensures Matches(before + [c] + after, title) <==> Matches(before + [Decompose(c)[0]] + after, title)
  {
    var b := Decompose(c)[0];
    LowerDecompose(c);
    NormalizeDecomposable(LowerChar(c));
    FilterKeepsAll([LowerChar(b)], IsLowerAlnum);
    NormalizeFixesLowerAlnum([LowerChar(b)]);
    NormalizeLowerInsert(before, c, after);
    NormalizeLowerInsert(before, b, after);
  }

  // The example lemmas below take their strings as parameters pinned by a
  // requires clause and apply lemmas only to non-literal terms: this keeps the
  // verifier from evaluating the whole pipeline on literals.

  /** Normalizing a string whose ends are already [a-z0-9] only touches the middle. */
  lemma NormalizeAround(a: string, mid: string, b: string)
    requires forall i :: 0 <= i < |a| ==> IsLowerAlnum(a[i])
    requires forall i :: 0 <= i < |b| ==> IsLowerAlnum(b[i])
    ensures Normalize(a + mid + b) == a + Normalize(mid) + b
  {
    NormalizeAppend3(a, mid, b);
    NormalizeFixesLowerAlnum(a);
    NormalizeFixesLowerAlnum(b);
  }

  /** [a-z0-9] text and the same text with one extra white space character
      normalize alike. */
  lemma KeysAgreeInserted(g: string, t: string, k: nat, c: char)
    requires k <= |g| && forall i :: 0 <= i < |g| ==> IsLowerAlnum(g[i])
    requires t == g[..k] + [c] + g[k..]
    requires IsWhiteSpace(c)
    ensures Normalize(g) == Normalize(t)
  {
    assert g == g[..k] + g[k..];
    NormalizeAround(g[..k], [c], g[k..]);
    WhiteSpaceVanishes(c);
    DropEmpty(g[..k], Normalize([c]), g[k..]);
    NormalizeFixesLowerAlnum(g);
  }

  /** [a-z0-9] text and the same text with one letter replaced by a
      precomposed letter over it normalize alike. */
  lemma KeysAgreeReplaced(g: string, t: string, k: nat, c: char)
    requires k < |g| && forall i :: 0 <= i < |g| ==> IsLowerAlnum(g[i])
    requires t == g[..k] + [c] + g[k + 1..]
    requires |Decompose(c)| == 2 && Decompose(c)[0] == g[k]
    ensures Normalize(g) == Normalize(t)
  {
    assert g == g[..k] + [g[k]] + g[k + 1..];
    NormalizeDecomposable(c);
    FilterKeepsAll([g[k]], IsLowerAlnum);
    NormalizeAround(g[..k], [c], g[k + 1..]);
    NormalizeFixesLowerAlnum(g);
  }

  /** Lower-casing a string whose first character is its only capital. */
  lemma LowerFirstCapital(s: string, lowered: string)
    requires s != [] && IsCapital(s[0])
    requires forall i :: 1 <= i < |s| ==> !IsCapital(s[i])
    requires lowered == [LowerChar(s[0])] + s[1..]
    ensures Lower(s) == lowered
  {
    assert s == [s[0]] + s[1..];
    LowerAppend([s[0]], s[1..]);
    LowerOfUncapitalized(s[1..]);
  }

  lemma AmelieNormal(g: string, t: string)
    requires g == "amelie" && t == "am\U{00E9}lie"
    ensures Normalize(g) == Normalize(t)
  {
    assert t == g[..2] + [t[2]] + g[3..];
    assert Decompose(t[2]) == [g[2], Acute];
    KeysAgreeReplaced(g, t, 2, t[2]);
  }

  lemma AmelieKeys(guess: string, title: string)
    requires guess == "amelie" && title == "Am\U{00E9}lie"
    ensures Normalize(Lower(guess)) == Normalize(Lower(title))
  {
    LowerOfUncapitalized(guess);
    LowerFirstCapital(title, "am\U{00E9}lie");
    AmelieNormal(guess, "am\U{00E9}lie");
  }

  lemma TheMatrixNormal(g: string, t: string)
    requires g == "thematrix" && t == "the matrix"
    ensures Normalize(g) == Normalize(t)
  {
    assert t == g[..3] + [t[3]] + g[3..];
    assert IsWhiteSpace(t[3]);
    KeysAgreeInserted(g, t, 3, t[3]);
  }

  lemma TheMatrixLower(first: string, second: string)
    requires first == "The " && second == "Matrix"
    ensures Lower(first + second) == "the matrix"
  {
    LowerAppend(first, second);
    LowerThe(first);
    LowerMatrix(second);
    assert "the " + "matrix" == "the matrix";
  }

  lemma LowerThe(s: string)
    requires s == "The "
    ensures Lower(s) == "the "
  {
    LowerFirstCapital(s, "the ");
  }

  lemma LowerMatrix(s: string)
    requires s == "Matrix"
    ensures Lower(s) == "matrix"
  {
    LowerFirstCapital(s, "matrix");
  }

  lemma TheMatrixKeys(guess: string, title: string)
    requires guess == "thematrix" && title == "The Matrix"
    ensures Normalize(Lower(guess)) == Normalize(Lower(title))
  {
    var first, second, lowered := "The ", "Matrix", "the matrix";
    assert title == first + second;
    TheMatrixLower(first, second);
    LowerOfUncapitalized(guess);
    TheMatrixNormal(guess, lowered);
  }

  lemma UpDownKeys(guess: string, title: string)
    requires guess == "Up" && title == "Down"
    ensures Normalize(Lower(guess)) != Normalize(Lower(title))
  {
    var g, t := Lower(guess), Lower(title);
    assert g == "up" && t == "down";
    NormalizeFixesLowerAlnum(g);
    NormalizeFixesLowerAlnum(t);
  }

  /** Examples of the verdict: an accent, case and a space are ignored;
      different words are not. */
  lemma MatchExamples()
    ensures Matches("amelie", "Am\U{00E9}lie")
    ensures Matches("thematrix", "The Matrix")
    ensures !Matches("Up", "Down")
  {
    AmelieKeys("amelie", "Am\U{00E9}lie");
    TheMatrixKeys("thematrix", "The Matrix");
    UpDownKeys("Up", "Down");
  }
}
