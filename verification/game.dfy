/** The higher/lower game engine: the start of a game and one guess, taken out
    of the view component and written as pure transitions over GameState.
    The dealer's remark is whatever string the commentary service returned;
    the engine never looks at it. */
module Game {
  import opened Types
  import opened Constants

  /** The state shown before the first game. */
  const INITIAL: GameState := GameState([], [], None, 0, Idle, "Welcome to my table. Care to test your luck?", false)

  /** A dealt deck: some arrangement of the 52 cards. */
  predicate IsDealt(d: seq<Card>) {
    multiset(d) == multiset(FreshDeck())
  }

  // ---------------------------------------------------------------------
  // Starting a game
  // ---------------------------------------------------------------------

  /** The synchronous part of starting a game: the top card of the dealt deck
      is turned and the table waits for the dealer's welcome. Nothing of the
      previous game survives: the result depends on the dealt deck alone. */
  function StartGame(dealt: seq<Card>): (g: GameState)
    requires |dealt| > 0
    ensures g.deck + [Top(dealt)] == dealt
    ensures g.history == [Top(dealt)] && g.currentCard == Some(Top(dealt))
    ensures g.score == 0 && g.status == Playing && g.isThinking
    ensures g.dealerComment == "Dealing the first card..."
  {
    var firstCard := Top(dealt);
    GameState(dealt[..|dealt| - 1], [firstCard], Some(firstCard), 0, Playing, "Dealing the first card...", true)
  }

  /** The welcome remark arrives: it is shown and the table takes guesses. */
  function Welcome(g: GameState, comment: string): (r: GameState)
    ensures r.dealerComment == comment && !r.isThinking
    ensures r.deck == g.deck && r.history == g.history && r.currentCard == g.currentCard
    ensures r.score == g.score && r.status == g.status
  {
    g.(dealerComment := comment, isThinking := false)
  }

  // ---------------------------------------------------------------------
  // One guess
  // ---------------------------------------------------------------------

  /** Whether a guess is acted upon at all; otherwise it is silently ignored. */
  predicate CanGuess(g: GameState) {
    g.status == Playing && !g.isThinking && g.currentCard.Some? && |g.deck| > 0
  }

  /** The comparison rule. Equal values count as correct for either guess. */
  predicate IsCorrect(guess: Guess, current: Card, next: Card) {
    match guess
    case Higher => next.value >= current.value
    case Lower => next.value <= current.value
  }

  function StatusAfter(correct: bool, newScore: int): GameStatus {
    if !correct then Lost
    else if newScore >= WINNING_SCORE then Won
    else Playing
  }

  /** What a guess has decided before the dealer's remark comes back. */
  datatype Turn = Turn(nextDeck: seq<Card>, nextCard: Card, correct: bool, newScore: int, newStatus: GameStatus)

  /** The first half of a guess: the guard, the draw from the top of the
      deck and the evaluation. None means the guess is ignored. */
  function BeginGuess(g: GameState, guess: Guess): (t: Option<Turn>)
    ensures t.Some? <==> CanGuess(g)
    ensures t.Some? ==> t.value.nextDeck + [t.value.nextCard] == g.deck
    ensures t.Some? ==> (t.value.correct <==> IsCorrect(guess, g.currentCard.value, t.value.nextCard))
    ensures t.Some? ==> t.value.newScore == (if t.value.correct then g.score + 1 else g.score)
    ensures t.Some? ==> (t.value.newStatus == Lost <==> !t.value.correct)
    ensures t.Some? ==> (t.value.newStatus == Won <==> t.value.correct && t.value.newScore >= WINNING_SCORE)
    ensures t.Some? ==> (t.value.newStatus == Playing <==> t.value.correct && t.value.newScore < WINNING_SCORE)
  {
    if g.status != Playing || g.isThinking || g.currentCard.None? then None
    else if |g.deck| == 0 then None
    else
      var nextCard := Top(g.deck);
      var isCorrect := IsCorrect(guess, g.currentCard.value, nextCard);
      var newScore := if isCorrect then g.score + 1 else g.score;
      Some(Turn(g.deck[..|g.deck| - 1], nextCard, isCorrect, newScore, StatusAfter(isCorrect, newScore)))
  }

  /** The table is busy while the remark is awaited. */
  function Thinking(g: GameState): GameState {
    g.(isThinking := true)
  }

  /** The second half of a guess: the drawn card, score, status and remark
      are applied to the state current at that moment. */
  function Commit(g: GameState, t: Turn, comment: string): GameState {
    g.(deck := t.nextDeck, currentCard := Some(t.nextCard), history := g.history + [t.nextCard],
       score := t.newScore, status := t.newStatus, dealerComment := comment, isThinking := false)
  }

  /** A whole guess, taken in one sequential step. */
  function HandleGuess(g: GameState, guess: Guess, comment: string): (r: GameState)
    ensures !CanGuess(g) ==> r == g
    ensures CanGuess(g) ==> r.deck + [Top(g.deck)] == g.deck
    ensures CanGuess(g) ==> r.currentCard == Some(Top(g.deck)) && r.history == g.history + [Top(g.deck)]
    ensures CanGuess(g) ==> |r.deck| + |r.history| == |g.deck| + |g.history|
    ensures CanGuess(g) ==> !r.isThinking && r.dealerComment == comment
    ensures CanGuess(g) ==> var ok := IsCorrect(guess, g.currentCard.value, Top(g.deck));
      && r.score == (if ok then g.score + 1 else g.score)
      && (r.status == Lost <==> !ok)
      && (r.status == Won <==> ok && r.score >= WINNING_SCORE)
      && (r.status == Playing <==> ok && r.score < WINNING_SCORE)
  {
    match BeginGuess(g, guess)
    case None => g
    case Some(t) => Commit(Thinking(g), t, comment)
  }

  // ---------------------------------------------------------------------
  // The comparison rule
  // ---------------------------------------------------------------------

  /** A tie is correct whichever way the player guessed. */
  lemma TieIsCorrect(guess: Guess, current: Card, next: Card)
    requires next.value == current.value
    ensures IsCorrect(guess, current, next)
  {
  }

  /** Some guess is always correct; when the values differ exactly one is. */
  lemma ExactlyOneGuessWinsUnlessTie(current: Card, next: Card)
    ensures IsCorrect(Higher, current, next) || IsCorrect(Lower, current, next)
    ensures next.value != current.value ==> (IsCorrect(Higher, current, next) <==> !IsCorrect(Lower, current, next))
    ensures IsCorrect(Higher, current, next) <==> next.value >= current.value
    ensures IsCorrect(Lower, current, next) <==> next.value <= current.value
  {
  }

  /** While the table is busy with one guess, another is ignored. */
  lemma BusyTableIgnoresGuesses(g: GameState, first: Guess, second: Guess)
    requires BeginGuess(g, first).Some?
    ensures BeginGuess(Thinking(g), second).None?
  {
  }

  // ---------------------------------------------------------------------
  // The game invariant
  // ---------------------------------------------------------------------

  /** Every state a game can reach. Once dealt, the deck and the history
      together hold exactly the 52 cards; the current card is the last one
      turned; the score counts the correct guesses, i.e. every guess but a
      losing one, and stays below the winning score while the game goes on. */
  predicate Valid(g: GameState) {
    if g.status == Idle then
      g.deck == [] && g.history == [] && g.currentCard == None && g.score == 0
    else
      && |g.history| > 0
      && g.currentCard == Some(Top(g.history))
      && multiset(g.deck) + multiset(g.history) == multiset(FreshDeck())
      && (g.status == Playing ==> g.score == |g.history| - 1 < WINNING_SCORE)
      && (g.status == Won ==> g.score == |g.history| - 1 == WINNING_SCORE)
      && (g.status == Lost ==> g.score == |g.history| - 2 && g.score < WINNING_SCORE)
  }

  lemma InitialValid()
    ensures Valid(INITIAL) && INITIAL.status == Idle
    ensures forall guess, comment :: HandleGuess(INITIAL, guess, comment) == INITIAL
  {
  }

  /** Starting from a dealt deck gives a valid game with 51 cards left. */
  lemma StartGameValid(dealt: seq<Card>, comment: string)
    requires IsDealt(dealt)
    ensures |dealt| == 52
    ensures Valid(StartGame(dealt)) && |StartGame(dealt).deck| == 51
    ensures Valid(Welcome(StartGame(dealt), comment))
  {
    FreshDeckLayout();
    assert |dealt| == |multiset(dealt)| == |multiset(FreshDeck())|;
    var g := StartGame(dealt);
    assert dealt == g.deck + g.history;
  }

  lemma WelcomeValid(g: GameState, comment: string)
    requires Valid(g)
    ensures Valid(Welcome(g, comment))
  {
  }

  /** Every dealt game has 52 cards between the deck and the history. */
  lemma ValidCardCount(g: GameState)
    requires Valid(g) && g.status != Idle
    ensures |g.deck| + |g.history| == 52
  {
    FreshDeckLayout();
    calc {
      |g.deck| + |g.history|;
      |multiset(g.deck)| + |multiset(g.history)|;
      |multiset(g.deck) + multiset(g.history)|;
      |multiset(FreshDeck())|;
    }
  }

  /** A running game always has cards to draw: the deck cannot run out
      before the game is decided. */
  lemma PlayingHasCards(g: GameState)
    requires Valid(g) && g.status == Playing
    ensures |g.deck| >= 52 - WINNING_SCORE
    ensures !g.isThinking ==> CanGuess(g)
  {
    ValidCardCount(g);
  }

  /** A guess keeps a game valid. */
  lemma HandleGuessValid(g: GameState, guess: Guess, comment: string)
    requires Valid(g)
    ensures Valid(HandleGuess(g, guess, comment))
  {
    if CanGuess(g) {
      var r := HandleGuess(g, guess, comment);
      var d := g.deck;
      assert d == r.deck + [Top(d)];
      assert multiset(d) == multiset(r.deck) + multiset([Top(d)]);
      assert multiset(r.history) == multiset(g.history) + multiset([Top(d)]);
    }
  }

  // ---------------------------------------------------------------------
  // Sequences of guesses
  // ---------------------------------------------------------------------

  /** A guess together with the remark that comes back for it. */
  datatype Move = Move(guess: Guess, comment: string)

  function Play(g: GameState, moves: seq<Move>): GameState
    decreases |moves|
  {
    if |moves| == 0 then g
    else Play(HandleGuess(g, moves[0].guess, moves[0].comment), moves[1..])
  }

  /** Each move's guess is right about the card on top of the deck when it
      is made. */
  predicate AllCorrect(g: GameState, moves: seq<Move>)
    decreases |moves|
  {
    |moves| == 0 ||
    (&& g.currentCard.Some? && |g.deck| > 0
     && IsCorrect(moves[0].guess, g.currentCard.value, Top(g.deck))
     && AllCorrect(HandleGuess(g, moves[0].guess, moves[0].comment), moves[1..]))
  }

  lemma {:induction false} PlayValid(g: GameState, moves: seq<Move>)
    requires Valid(g)
    ensures Valid(Play(g, moves))
    decreases |moves|
  {
    if |moves| > 0 {
      HandleGuessValid(g, moves[0].guess, moves[0].comment);
      PlayValid(HandleGuess(g, moves[0].guess, moves[0].comment), moves[1..]);
    }
  }

  /** A won or lost game ignores every later guess. */
  lemma {:induction false} DecidedGameIsFinal(g: GameState, moves: seq<Move>)
    requires g.status == Won || g.status == Lost
    ensures Play(g, moves) == g
    decreases |moves|
  {
    if |moves| > 0 {
      DecidedGameIsFinal(HandleGuess(g, moves[0].guess, moves[0].comment), moves[1..]);
    }
  }

  /** Guesses never rewrite the cards already turned. */
  lemma {:induction false} HistoryOnlyGrows(g: GameState, moves: seq<Move>)
    ensures |g.history| <= |Play(g, moves).history|
    ensures Play(g, moves).history[..|g.history|] == g.history
    decreases |moves|
  {
    if |moves| > 0 {
      var h := HandleGuess(g, moves[0].guess, moves[0].comment);
      HistoryOnlyGrows(h, moves[1..]);
      assert h.history[..|g.history|] == g.history;
    }
  }

  /** A run of correct guesses adds one point each, and the game is won
      exactly when the score reaches the winning score, not before. */
  lemma {:induction false} CorrectGuessesScore(g: GameState, moves: seq<Move>)
    requires Valid(g) && g.status == Playing && !g.isThinking
    requires AllCorrect(g, moves) && |moves| <= WINNING_SCORE - g.score
    ensures Play(g, moves).score == g.score + |moves|
    ensures Play(g, moves).status == (if g.score + |moves| == WINNING_SCORE then Won else Playing)
    decreases |moves|
  {
    if |moves| > 0 {
      PlayingHasCards(g);
      var h := HandleGuess(g, moves[0].guess, moves[0].comment);
      HandleGuessValid(g, moves[0].guess, moves[0].comment);
      if |moves| == 1 {
        assert Play(g, moves) == Play(h, []) == h;
      } else {
        assert h.status == Playing;
        CorrectGuessesScore(h, moves[1..]);
      }
    }
  }

  /** Every game is decided within WINNING_SCORE guesses of a fresh start:
      each guess either loses or adds a point. */
  lemma {:induction false} GameIsDecided(g: GameState, moves: seq<Move>)
    requires Valid(g) && g.status == Playing && !g.isThinking
    requires |moves| >= WINNING_SCORE - g.score
    ensures Play(g, moves).status == Won || Play(g, moves).status == Lost
    decreases |moves|
  {
    PlayingHasCards(g);
    var h := HandleGuess(g, moves[0].guess, moves[0].comment);
    HandleGuessValid(g, moves[0].guess, moves[0].comment);
    if h.status == Playing {
      GameIsDecided(h, moves[1..]);
    } else {
      DecidedGameIsFinal(h, moves[1..]);
    }
  }

  /** From a fresh game, three correct guesses win, and one or two do not. */
  lemma FreshGameWinsOnThirdCorrectGuess(dealt: seq<Card>, welcome: string, moves: seq<Move>)
    requires IsDealt(dealt)
    requires |moves| == WINNING_SCORE && AllCorrect(Welcome(StartGame(dealt), welcome), moves)
    ensures Play(Welcome(StartGame(dealt), welcome), moves).status == Won
    ensures Play(Welcome(StartGame(dealt), welcome), moves).score == WINNING_SCORE
    ensures Play(Welcome(StartGame(dealt), welcome), moves[..1]).status == Playing
    ensures Play(Welcome(StartGame(dealt), welcome), moves[..2]).status == Playing
  {
    var g := Welcome(StartGame(dealt), welcome);
    StartGameValid(dealt, welcome);
    CorrectGuessesScore(g, moves);
    AllCorrectPrefix(g, moves, 1);
    CorrectGuessesScore(g, moves[..1]);
    AllCorrectPrefix(g, moves, 2);
    CorrectGuessesScore(g, moves[..2]);
  }

  lemma {:induction false} AllCorrectPrefix(g: GameState, moves: seq<Move>, k: nat)
    requires AllCorrect(g, moves) && k <= |moves|
    ensures AllCorrect(g, moves[..k])
    decreases k
  {
    if k > 0 {
      var h := HandleGuess(g, moves[0].guess, moves[0].comment);
      AllCorrectPrefix(h, moves[1..], k - 1);
      assert moves[..k][1..] == moves[1..][..k - 1];
    }
  }

  // ---------------------------------------------------------------------
  // The whole start of a game
  // ---------------------------------------------------------------------

  /** `initGame`: deal a shuffled deck, turn its top card and show the
      welcome remark. */
  method InitGame(draws: seq<real>, welcome: string) returns (g: GameState)
    requires RandomDraws(draws, 52)
    ensures g.score == 0 && |g.history| == 1 && |g.deck| == 51
      && g.deck + g.history == Dealt(draws)
    ensures g.currentCard == Some(g.history[0])
    ensures Valid(g) && g.status == Playing && !g.isThinking && g.dealerComment == welcome
  {
    var dealt := GenerateDeck(draws);
    g := Welcome(StartGame(dealt), welcome);
    StartGameValid(dealt, welcome);
  }
}
