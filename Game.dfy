/**
 * The round and score state of script.js: the module-level variables apiKey,
 * currentMovie, currentBackdrops, currentImageIndex and score
 * (script.js:6-10), and the functions that update them.
 *
 * The answers of the movie database (the movie list, the image list, the key
 * check), the random choices and the shuffle are parameters of the methods.
 */
module Game {
  import opened Wrappers
  import opened Text
  import GuessEvaluator

  datatype Movie = Movie(id: int, title: string, posterPath: Option<string>)

  datatype Backdrop = Backdrop(filePath: string)

  /** What the images request of a round answered (script.js:147-151): the
      request failed, the answer had no backdrops field, or it listed these. */
  datatype ImagesReply = ImagesFailed | NoBackdropList | BackdropList(backdrops: seq<Backdrop>)

  /** How startNewRound ended: the error alert, the retry on a movie without
      backdrops, or a round on screen. */
  datatype RoundStart = LoadFailed | Retry | Started

  /** What a submitted guess did. NoRound: no movie is loaded yet, and reading
      its title throws. */
  datatype GuessOutcome = NoRound | Wrong | Won(movie: Movie, imagesSeen: nat)

  datatype LoginOutcome = EmptyKey | KeyRejected | KeyAccepted

  /** What updateDisplay puts on screen: the backdrop at the current index, how
      many images have been shown, and whether the hint button is switched off. */
  datatype Frame = Frame(image: Backdrop, shown: nat, lastImage: bool)

  /** A round keeps at most this many backdrops (script.js:164). */
  const MaxBackdrops := 3

  function Min(a: int, b: int): int {
    if a < b then a else b
  }

  /** shuffled.slice(0, 3) (script.js:164). */
  function KeptBackdrops(shuffled: seq<Backdrop>): (kept: seq<Backdrop>)
    ensures |kept| == Min(|shuffled|, MaxBackdrops)
    ensures kept == shuffled[..|kept|]
  {
    if |shuffled| <= MaxBackdrops then shuffled else shuffled[..MaxBackdrops]
  }

  /** The kept backdrops of a shuffle of a non-empty list: one to three of
      them, drawn from the list without repetition. */
  lemma KeptBackdropsFromFetched(fetched: seq<Backdrop>, shuffled: seq<Backdrop>)
    requires multiset(shuffled) == multiset(fetched) && fetched != []
    ensures 1 <= |KeptBackdrops(shuffled)| <= MaxBackdrops
    ensures multiset(KeptBackdrops(shuffled)) <= multiset(fetched)
    ensures forall b :: b in KeptBackdrops(shuffled) ==> b in fetched
  {
    var kept := KeptBackdrops(shuffled);
    assert |shuffled| == |multiset(shuffled)| == |multiset(fetched)| == |fetched|;
    assert shuffled == kept + shuffled[|kept|..];
    assert multiset(shuffled) == multiset(kept) + multiset(shuffled[|kept|..]);
    forall b | b in kept ensures b in fetched {
      assert b in multiset(kept);
      assert b in multiset(fetched);
    }
  }

  /** The last-image condition of updateDisplay (script.js:220). */
  predicate IsLastImage(index: int, count: int)
    ensures 0 <= index < count ==> (IsLastImage(index, count) <==> index == count - 1)
  {
    index >= count - 1
  }

  /** The index showNextImage moves to (script.js:227-228): one further while
      another image exists; it stays put exactly on the last image. */
  function NextImageIndex(index: int, count: int): (next: int)
    ensures next == index <==> IsLastImage(index, count)
    ensures !IsLastImage(index, count) ==> next == index + 1
  {
    if index < count - 1 then index + 1 else index
  }

  /** The image index after a round starts at 0 (script.js:178) and the player
      asks for hints times a hint. */
  function IndexAfterHints(count: int, hints: nat): int {
    if hints == 0 then 0 else NextImageIndex(IndexAfterHints(count, hints - 1), count)
  }

  /** However many hints are asked for, the index stays in [0, count - 1]: it
      is the number of hints until the last image, and stays there. */
  lemma {:induction false} HintsStayInRange(count: int, hints: nat)
    requires count >= 1
    ensures IndexAfterHints(count, hints) == Min(hints, count - 1)
    ensures 0 <= IndexAfterHints(count, hints) < count
    ensures IsLastImage(IndexAfterHints(count, hints), count) <==> hints >= count - 1
  {
    if hints > 0 {
      HintsStayInRange(count, hints - 1);
    }
  }

  /** The script's global game state. */
  class Session {
    var apiKey: string
    var currentMovie: Option<Movie>
    var currentBackdrops: seq<Backdrop>
    var currentImageIndex: int
    var score: nat

    /** A movie is loaded exactly when backdrops are (both are set together,
        script.js:158-164), and there are at most three. */
    ghost predicate Loaded()
      reads this
    {
      && |currentBackdrops| <= MaxBackdrops
      && (currentMovie.None? <==> currentBackdrops == [])
    }

    /** Loaded, and the index is 0 or points at one of the backdrops. */
    ghost predicate Valid()
      reads this
    {
      Loaded() && (currentImageIndex == 0 || 0 <= currentImageIndex < |currentBackdrops|)
    }

    /** The initial values (script.js:6-10). */
    constructor ()
      ensures Valid()
      ensures apiKey == [] && currentMovie == None && currentBackdrops == []
      ensures currentImageIndex == 0 && score == 0
    {
      apiKey := [];
      currentMovie := None;
      currentBackdrops := [];
      currentImageIndex := 0;
      score := 0;
    }

    /** updateDisplay (script.js:196-224): nothing when there is no backdrop
        at the current index, otherwise that backdrop, the images shown so far
        and whether a further hint would be a no-op. */
    function Display(): (f: Option<Frame>)
      reads this
      ensures f.Some? <==> 0 <= currentImageIndex < |currentBackdrops|
      ensures Valid() ==> (f.Some? <==> currentBackdrops != [])
      ensures f.Some? ==> 0 <= currentImageIndex < |currentBackdrops|
                          && f.value.image == currentBackdrops[currentImageIndex]
                          && f.value.shown == currentImageIndex + 1
      ensures f.Some? ==> f.value.image in currentBackdrops && 1 <= f.value.shown <= |currentBackdrops|
      ensures f.Some? ==> (f.value.lastImage <==> NextImageIndex(currentImageIndex, |currentBackdrops|) == currentImageIndex)
    {
      if 0 <= currentImageIndex < |currentBackdrops| then
        Some(Frame(currentBackdrops[currentImageIndex], currentImageIndex + 1,
                   IsLastImage(currentImageIndex, |currentBackdrops|)))
      else
        None
    }

    /** The part of resetGameState that touches the state (script.js:178). */
    method ResetGameState()
      requires Valid()
      modifies this`currentImageIndex
      ensures Valid()
      ensures currentImageIndex == 0
    {
      currentImageIndex := 0;
    }

    /** showNextImage (script.js:226-231): one image further while another
        exists; on the last image nothing changes. */
    method ShowNextImage()
      requires Valid()
      modifies this`currentImageIndex
      ensures Valid()
      ensures !old(IsLastImage(currentImageIndex, |currentBackdrops|)) ==> currentImageIndex == old(currentImageIndex) + 1
      ensures old(IsLastImage(currentImageIndex, |currentBackdrops|)) ==> currentImageIndex == old(currentImageIndex)
      ensures currentImageIndex == NextImageIndex(old(currentImageIndex), |currentBackdrops|)
    {
      if currentImageIndex < |currentBackdrops| - 1 {
        currentImageIndex := currentImageIndex + 1;
      }
    }

    /** The part of startNewRound after its awaits (script.js:131-169), as
        written: listing is the movie list of the random page (None when the
        request failed), pick the random position in it, images the answer
        of the images request, and shuffled the order the random sort
        produced. The round starts only with a movie that has a backdrop; it
        then keeps the first three of the shuffled backdrops. The index is
        left as it is found, so a hint taken while the requests were
        outstanding carries over into the new round (see HintWhileLoading). */
    method FinishRoundAsWritten(listing: Option<seq<Movie>>, pick: nat, images: ImagesReply, shuffled: seq<Backdrop>)
      returns (r: RoundStart)
      requires Loaded()
      requires listing.Some? && listing.value != [] ==> pick < |listing.value|
      requires images.BackdropList? ==> multiset(shuffled) == multiset(images.backdrops)
      modifies this`currentMovie, this`currentBackdrops
      ensures Loaded()
      ensures r == LoadFailed <==> listing.None? || listing.value == [] || images.ImagesFailed?
      ensures r == Retry <==> listing.Some? && listing.value != []
                              && (images.NoBackdropList? || (images.BackdropList? && images.backdrops == []))
      ensures r == Started ==>
                && currentMovie == Some(listing.value[pick])
                && currentBackdrops == KeptBackdrops(shuffled)
                && 1 <= |currentBackdrops| <= MaxBackdrops
                && multiset(currentBackdrops) <= multiset(images.backdrops)
      ensures r != Started ==> currentMovie == old(currentMovie) && currentBackdrops == old(currentBackdrops)
    {
      if listing.None? || |listing.value| == 0 {
        return LoadFailed;
      }
      var movie := listing.value[pick];
      match images
      case ImagesFailed =>
        r := LoadFailed;
      case NoBackdropList =>
        r := Retry;
      case BackdropList(fetched) =>
        if |fetched| < 1 {
          return Retry;
        }
        currentMovie := Some(movie);
        KeptBackdropsFromFetched(fetched, shuffled);
        currentBackdrops := KeptBackdrops(shuffled);
        r := Started;
    }

    /** The same, with the index put back on the first image when the new
        backdrops are installed, so that the round opens on its first image
        whatever happened while it loaded. */
    method FinishRound(listing: Option<seq<Movie>>, pick: nat, images: ImagesReply, shuffled: seq<Backdrop>)
      returns (r: RoundStart)
      requires Valid()
      requires listing.Some? && listing.value != [] ==> pick < |listing.value|
      requires images.BackdropList? ==> multiset(shuffled) == multiset(images.backdrops)
      modifies this`currentImageIndex, this`currentMovie, this`currentBackdrops
      ensures Valid()
      ensures r == LoadFailed <==> listing.None? || listing.value == [] || images.ImagesFailed?
      ensures r == Retry <==> listing.Some? && listing.value != []
                              && (images.NoBackdropList? || (images.BackdropList? && images.backdrops == []))
      ensures r == Started ==>
                && currentMovie == Some(listing.value[pick])
                && currentBackdrops == KeptBackdrops(shuffled)
                && 1 <= |currentBackdrops| <= MaxBackdrops
                && multiset(currentBackdrops) <= multiset(images.backdrops)
                && currentImageIndex == 0
      ensures r != Started ==> currentMovie == old(currentMovie) && currentBackdrops == old(currentBackdrops)
                               && currentImageIndex == old(currentImageIndex)
    {
      r := FinishRoundAsWritten(listing, pick, images, shuffled);
      if r == Started {
        currentImageIndex := 0;
      }
    }

    /** startNewRound (script.js:126-175) run to completion: the reset, then
        the database answers. */
    method StartNewRound(listing: Option<seq<Movie>>, pick: nat, images: ImagesReply, shuffled: seq<Backdrop>)
      returns (r: RoundStart)
      requires Valid()
      requires listing.Some? && listing.value != [] ==> pick < |listing.value|
      requires images.BackdropList? ==> multiset(shuffled) == multiset(images.backdrops)
      modifies this`currentImageIndex, this`currentMovie, this`currentBackdrops
      ensures Valid()
      ensures currentImageIndex == 0
      ensures r == LoadFailed <==> listing.None? || listing.value == [] || images.ImagesFailed?
      ensures r == Retry <==> listing.Some? && listing.value != []
                              && (images.NoBackdropList? || (images.BackdropList? && images.backdrops == []))
      ensures r == Started ==>
                && currentMovie == Some(listing.value[pick])
                && currentBackdrops == KeptBackdrops(shuffled)
                && 1 <= |currentBackdrops| <= MaxBackdrops
                && multiset(currentBackdrops) <= multiset(images.backdrops)
      ensures r != Started ==> currentMovie == old(currentMovie) && currentBackdrops == old(currentBackdrops)
    {
      ResetGameState();
      r := FinishRound(listing, pick, images, shuffled);
    }

    /** handleWin (script.js:277-293): exactly one more point. */
    method HandleWin() returns (outcome: GuessOutcome)
      requires Valid() && currentMovie.Some?
      modifies this`score
      ensures Valid()
      ensures score == old(score) + 1
      ensures outcome == Won(currentMovie.value, currentImageIndex + 1)
    {
      score := score + 1;
      outcome := Won(currentMovie.value, currentImageIndex + 1);
    }

    /** checkGuess (script.js:254-269): a win when the guess matches the
        title, which scores one point; a wrong guess changes nothing. */
    method CheckGuess(guess: string) returns (outcome: GuessOutcome)
      requires Valid()
      modifies this`score
      ensures Valid()
      ensures outcome.NoRound? <==> currentMovie.None?
      ensures outcome.Won? <==> currentMovie.Some? && GuessEvaluator.Matches(guess, currentMovie.value.title)
      ensures outcome.Won? ==> outcome == Won(currentMovie.value, currentImageIndex + 1)
      ensures score == if outcome.Won? then old(score) + 1 else old(score)
    {
      if currentMovie.None? {
        return NoRound;
      }
      if GuessEvaluator.Matches(guess, currentMovie.value.title) {
        outcome := HandleWin();
      } else {
        outcome := Wrong;
      }
    }

    /** handleSkip (script.js:234-252): reveals the movie and changes no
        state; None when no movie is loaded, where reading its title throws. */
    method HandleSkip() returns (revealed: Option<Movie>)
      ensures revealed == currentMovie
    {
      revealed := currentMovie;
    }

    /** The start button (script.js:52-74): a key that is blank once trimmed is
        refused before any check; otherwise the trimmed key is kept when the
        database accepts it (accepted is the answer of testApiKey). */
    method SubmitKey(input: string, accepted: bool) returns (r: LoginOutcome)
      requires Valid()
      modifies this`apiKey
      ensures Valid()
      ensures r == EmptyKey <==> Trim(input) == []
      ensures r == KeyAccepted <==> Trim(input) != [] && accepted
      ensures r == KeyAccepted ==> apiKey == Trim(input)
      ensures r != KeyAccepted ==> apiKey == old(apiKey)
    {
      var key := Trim(input);
      if key == [] {
        return EmptyKey;
      }
      if accepted {
        apiKey := key;
        r := KeyAccepted;
      } else {
        r := KeyRejected;
      }
    }

    /** Page load (script.js:38-50): a non-empty stored key becomes the key,
        untrimmed, even if the database then rejects it; the game screen
        opens only when it accepts it. */
    method RestoreKey(stored: Option<string>, accepted: bool) returns (showGame: bool)
      requires Valid()
      modifies this`apiKey
      ensures Valid()
      ensures stored.Some? && stored.value != [] ==> apiKey == stored.value
      ensures !(stored.Some? && stored.value != []) ==> apiKey == old(apiKey)
      ensures showGame <==> stored.Some? && stored.value != [] && accepted
    {
      showGame := false;
      if stored.Some? && stored.value != [] {
        apiKey := stored.value;
        showGame := accepted;
      }
    }
  }

  /** A round as the script sets it up: two backdrops, shuffled; a hint
      shows the second, and a further hint is a no-op. */
  method PlayHints(movie: Movie, a: Backdrop, b: Backdrop) returns (session: Session)
    ensures session.Valid()
    ensures session.currentMovie == Some(movie) && session.currentBackdrops == [b, a]
    ensures session.currentImageIndex == 1
    ensures session.Display() == Some(Frame(a, 2, true))
  {
    session := new Session();
    var started := session.StartNewRound(Some([movie]), 0, BackdropList([a, b]), [b, a]);
    session.ShowNextImage();
    session.ShowNextImage();
  }

  /** A session whose round shows the first of three backdrops. */
  method ThreeBackdropRound(movie: Movie, a: Backdrop, b: Backdrop, c: Backdrop) returns (session: Session)
    ensures fresh(session)
    ensures session.Valid()
    ensures session.currentMovie == Some(movie) && session.currentBackdrops == [a, b, c]
    ensures session.currentImageIndex == 0
  {
    session := new Session();
    var r := session.StartNewRound(Some([movie]), 0, BackdropList([a, b, c]), [a, b, c]);
  }

  /** A hint taken while the next round loads, with the after-await part as
      written. The previous round had three backdrops; the reset of the next
      round (script.js:178, 186) puts the index on 0 and switches the hint
      button back on before the requests go out; a skip then reveals the
      previous movie, and a hint moves the index to 1. The new movie has one
      backdrop, so the index points past it: updateDisplay finds no backdrop
      there and returns at once (script.js:197), leaving the previous image
      on screen, and the invariant is broken. */
  method HintWhileLoading(previous: Movie, next: Movie, a: Backdrop, b: Backdrop, c: Backdrop, d: Backdrop)
    returns (session: Session, revealed: Option<Movie>)
    ensures revealed == Some(previous)
    ensures session.currentMovie == Some(next) && session.currentBackdrops == [d]
    ensures session.currentImageIndex == 1 >= |session.currentBackdrops|
    ensures !session.Valid()
    ensures session.Display() == None
  {
    session := ThreeBackdropRound(previous, a, b, c);
    session.ResetGameState();
    revealed := session.HandleSkip();
    session.ShowNextImage();
    var r := session.FinishRoundAsWritten(Some([next]), 0, BackdropList([d]), [d]);
  }

  /** The same events with the index reset when the backdrops are installed:
      the new round opens on its only image. */
  method HintWhileLoadingCorrected(previous: Movie, next: Movie, a: Backdrop, b: Backdrop, c: Backdrop, d: Backdrop)
    returns (session: Session)
    ensures session.Valid()
    ensures session.currentMovie == Some(next) && session.currentBackdrops == [d]
    ensures session.Display() == Some(Frame(d, 1, true))
  {
    session := ThreeBackdropRound(previous, a, b, c);
    session.ResetGameState();
    session.ShowNextImage();
    var r := session.FinishRound(Some([next]), 0, BackdropList([d]), [d]);
    assert r == Started && session.currentImageIndex == 0;
  }

  /** Guesses in a loaded round: a wrong one scores nothing, a right one
      scores a point, and since nothing in the script closes the round on a
      win, submitting the right one again scores again. */
  method PlayGuesses(session: Session, wrong: string, right: string)
    returns (first: GuessOutcome, second: GuessOutcome, third: GuessOutcome)
    requires session.Valid() && session.currentMovie.Some?
    requires !GuessEvaluator.Matches(wrong, session.currentMovie.value.title)
    requires GuessEvaluator.Matches(right, session.currentMovie.value.title)
    modifies session`score
    ensures first == Wrong
    ensures second == third == Won(session.currentMovie.value, session.currentImageIndex + 1)
    ensures session.score == old(session.score) + 2
  {
    first := session.CheckGuess(wrong);
    second := session.CheckGuess(right);
    third := session.CheckGuess(right);
  }
}
