/**
 * The title autocomplete of script.js: when a typed query is long enough to
 * search for (handleInput), how many results are listed and what year label
 * each carries (displaySuggestions). The search request itself is a network
 * call; its parsed reply is an input here.
 */
module Autocomplete {
  import opened Wrappers
  import opened Text

  /** At most this many search results are listed (script.js:323). */
  const MaxSuggestions := 5

  /** What handleInput does with the text of the guess box. */
  datatype InputAction =
    | HideSuggestions        // trimmed query shorter than 2
    | NoKey                  // long enough, but no API key is set
    | Search(query: string)  // a search request for the trimmed query

  /** One search result as the reply lists it; a missing or empty
      release_date is None. */
  datatype SearchHit = SearchHit(title: string, releaseDate: Option<string>)

  /** One entry of the suggestion list: the title and its year label. */
  datatype Suggestion = Suggestion(title: string, year: string)

  /** The suggestion list after a reply has been displayed. */
  datatype SuggestionList = Hidden | Shown(items: seq<Suggestion>)

  /** The number of characters of s that are not white space. */
  function NonSpaceCount(s: string): (n: nat)
    ensures n <= |s|
  {
    if s == [] then 0
    else (if IsWhiteSpace(s[0]) then 0 else 1) + NonSpaceCount(s[1..])
  }

  lemma {:induction false} NonSpaceCountAppend(a: string, b: string)
    ensures NonSpaceCount(a + b) == NonSpaceCount(a) + NonSpaceCount(b)
  {
    if a == [] {
      assert a + b == b;
    } else {
      assert (a + b)[1..] == a[1..] + b;
      NonSpaceCountAppend(a[1..], b);
    }
  }

  lemma {:induction false} NonSpaceCountOfWhiteSpace(s: string)
    requires AllWhiteSpace(s)
    ensures NonSpaceCount(s) == 0
  {
    if s != [] {
      NonSpaceCountOfWhiteSpace(s[1..]);
    }
  }

  /** A string with no white space at either end and at least two
      characters has at least two characters that are not white space. */
  lemma NonSpaceCountOfTrimmed(r: string)
    requires |r| >= 2 && !IsWhiteSpace(r[0]) && !IsWhiteSpace(r[|r| - 1])
    ensures NonSpaceCount(r) >= 2
  {
    var mid := r[1..|r| - 1];
    assert r == [r[0]] + mid + [r[|r| - 1]];
    NonSpaceCountAppend([r[0]] + mid, [r[|r| - 1]]);
    NonSpaceCountAppend([r[0]], mid);
    assert NonSpaceCount([r[0]]) == 1 by { assert [r[0]][1..] == []; }
    assert NonSpaceCount([r[|r| - 1]]) == 1 by { assert [r[|r| - 1]][1..] == []; }
  }

  /** The length rule of handleInput in terms of the raw text: the trimmed
      query has at least two characters exactly when the typed text holds
      at least two characters that are not white space. */
  lemma TrimmedLengthAtLeastTwo(s: string)
    ensures |Trim(s)| >= 2 <==> NonSpaceCount(s) >= 2
  {
    var pre, post := TrimSplit(s);
    var r := Trim(s);
    assert NonSpaceCount(s) == NonSpaceCount(r) by {
      NonSpaceCountAppend(pre + r, post);
      NonSpaceCountAppend(pre, r);
      NonSpaceCountOfWhiteSpace(pre);
      NonSpaceCountOfWhiteSpace(post);
    }
    if |r| >= 2 {
      NonSpaceCountOfTrimmed(r);
    }
  }

  /** handleInput (script.js:308-316): the query is the trimmed text; one
      shorter than 2 hides the list, and without a key nothing happens. */
  function HandleInput(text: string, apiKey: string): (a: InputAction)
    ensures a.HideSuggestions? <==> |Trim(text)| < 2
    ensures a.NoKey? <==> |Trim(text)| >= 2 && apiKey == []
    ensures a.Search? ==> a.query == Trim(text) && |a.query| >= 2
    ensures a.Search? ==> !IsWhiteSpace(a.query[0]) && !IsWhiteSpace(a.query[|a.query| - 1])
  {
    var query := Trim(text);
    if |query| < 2 then HideSuggestions
    else if apiKey == [] then NoKey
    else Search(query)
  }

  /** Text typed around the query does not change the search: a query
      already searched for, padded with white space, searches the same. */
  lemma SearchIgnoresPadding(text: string, pre: string, post: string, apiKey: string)
    requires AllWhiteSpace(pre) && AllWhiteSpace(post)
    ensures HandleInput(pre + text + post, apiKey) == HandleInput(text, apiKey)
  {
    TrimPadded(text, pre, post);
  }

  /** Text before the first '-' of d, or all of d when it holds none:
      d.split('-')[0]. */
  function BeforeDash(d: string): (r: string)
    ensures |r| <= |d| && r == d[..|r|]
    ensures '-' !in r
    ensures |r| == |d| || d[|r|] == '-'
  {
    if d == [] || d[0] == '-' then []
    else [d[0]] + BeforeDash(d[1..])
  }

  /** BeforeDash is the only prefix of d that holds no '-' and ends at a
      '-' or at the end of d. */
  lemma {:induction false} BeforeDashUnique(d: string, p: string)
    requires |p| <= |d| && p == d[..|p|] && '-' !in p
    requires |p| == |d| || d[|p|] == '-'
    ensures BeforeDash(d) == p
  {
    if p != [] {
      assert d[0] == p[0];
      assert p[1..] == d[1..][..|p| - 1];
      BeforeDashUnique(d[1..], p[1..]);
      assert p == [p[0]] + p[1..];
    }
  }

  /** The year label of a result (script.js:341): the text before the first
      '-' of its release date, and empty when it has none. */
  function YearLabel(releaseDate: Option<string>): (year: string)
    ensures releaseDate.None? ==> year == []
    ensures releaseDate.Some? ==> |year| <= |releaseDate.value| && year == releaseDate.value[..|year|] && '-' !in year
    ensures releaseDate.Some? ==> |year| == |releaseDate.value| || (|year| < |releaseDate.value| && releaseDate.value[|year|] == '-')
  {
    match releaseDate
    case None => []
    case Some(d) => BeforeDash(d)
  }

  /** A date written year-month-day is labelled with its year. */
  lemma YearOfDate(year: string, rest: string)
    requires '-' !in year
    ensures YearLabel(Some(year + "-" + rest)) == year
  {
    var d := year + "-" + rest;
    assert d[..|year|] == year;
    BeforeDashUnique(d, year);
  }

  /** A date with no '-' in it is its own label. */
  lemma YearOfUndashedDate(d: string)
    requires '-' !in d
    ensures YearLabel(Some(d)) == d
  {
    BeforeDashUnique(d, d);
  }

  /** The entries displaySuggestions builds, one per result in order. */
  function Entries(results: seq<SearchHit>): (items: seq<Suggestion>)
    ensures |items| == |results|
    ensures forall i :: 0 <= i < |results| ==>
      items[i] == Suggestion(results[i].title, YearLabel(results[i].releaseDate))
  {
    if results == [] then []
    else [Suggestion(results[0].title, YearLabel(results[0].releaseDate))] + Entries(results[1..])
  }

  /** What the list shows after a reply (script.js:321-324, 330-348): a
      reply with no results field leaves it untouched (None); otherwise its
      first 5 results are listed, and an empty list is hidden. */
  function DisplayReply(results: Option<seq<SearchHit>>): (shown: Option<SuggestionList>)
    ensures results.None? <==> shown.None?
    ensures shown.Some? ==> (shown.value.Hidden? <==> results.value == [])
    ensures shown.Some? && shown.value.Shown? ==>
      |shown.value.items| == (if |results.value| < MaxSuggestions then |results.value| else MaxSuggestions)
    ensures shown.Some? && shown.value.Shown? ==> forall i :: 0 <= i < |shown.value.items| ==>
      shown.value.items[i].title == results.value[i].title &&
      shown.value.items[i].year == YearLabel(results.value[i].releaseDate)
  {
    match results
    case None => None
    case Some(hits) =>
      var kept := if |hits| < MaxSuggestions then hits else hits[..MaxSuggestions];
      if kept == [] then Some(Hidden) else Some(Shown(Entries(kept)))
  }

  /** Results past the fifth never reach the list. */
  lemma LaterResultsIgnored(hits: seq<SearchHit>, more: seq<SearchHit>)
    requires |hits| >= MaxSuggestions
    ensures DisplayReply(Some(hits + more)) == DisplayReply(Some(hits))
  {
    assert (hits + more)[..MaxSuggestions] == hits[..MaxSuggestions];
  }
}
