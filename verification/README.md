# Ace High: a verified model of the higher/lower card game

"Ace High" is a browser card game. The player sees a card and guesses whether
the next card from the deck is higher or lower. Three correct guesses in a row
win. One wrong guess loses. A dealer character comments on every turn; the
comment comes from a remote text generator.

This project models the two pieces of the game that carry logic, and proves
properties of them:

- **The deck generator** (`constants.tsx`). `generateDeck` builds the 52 cards,
  suit by suit, with one card per label `A`..`K`. It then passes them to
  `shuffle`, a Durstenfeld (Fisher–Yates) swap loop that works on a copy.
  Module `Constants` holds `WINNING_SCORE`, `SUITS`, the label table, the
  unshuffled deck (`FreshDeck`), and the shuffle. The shuffle has two forms:
  an imperative loop (`Shuffle`) and a recursive reference definition
  (`ShuffleSpec`), and the method is proved equal to the reference.
- **The game engine** (the non-view logic of `initGame` and `handleGuess` in
  `App.tsx`). Module `Game` lifts it into pure transitions over the
  `GameState` datatype of module `Types` (`types.ts`):
  - `StartGame` is the synchronous state set when a game starts.
  - `Welcome` applies the dealer's opening remark.
  - `BeginGuess` applies the guard, draws the top card and evaluates the guess.
  - `Thinking` sets the busy flag while the remark is awaited.
  - `Commit` applies the turn's result.
  - `HandleGuess` composes `BeginGuess`, `Thinking` and `Commit` into one
    sequential step.

`Valid` is the game invariant. Once a game is dealt, the deck and the history
together hold exactly the 52 cards. The current card is the last one turned.
The score equals the number of correct guesses: `|history| - 1` while playing
or after a win, and `|history| - 2` after a loss. The score stays below 3
while the game goes on.

Modelling decisions:

- `Math.random()` becomes a sequence `draws` of reals in `[0, 1)`. The loop
  uses `draws[i]` when its counter is `i`; `draws[0]` is never used. The
  drawn index is `Floor(draws[i] * (i + 1))`, as in the source, and
  `RandomIndex` proves it lies in `[0, i]`.
- The deck is a stack whose top is its last element, because `pop()` takes
  the last element.
- The dealer's remark is an arbitrary string parameter, never interpreted.
- The card field `label` is called `face`, because `label` is a Dafny
  keyword.

## Model

| member | source | states |
|---|---|---|
| Constants.ConstantsAsDeclared | constants.tsx:5-7 | The winning score is 3, and SUITS lists four distinct suits that cover every suit. |
| Constants.SuitIndex | constants.tsx:7 | Every suit occurs in SUITS, at the returned position. |
| Constants.BuildLength | constants.tsx:22-30 | The nested forEach over the suits pushes exactly 13 cards per suit. |
| Constants.BuildAt | constants.tsx:22-30 | Position k of the built deck holds the card of suit number k / 13, with value k % 13 + 1 and label number k % 13. |
| Constants.FreshDeckLayout | constants.tsx:19-30 | The unshuffled deck has 4 × 13 = 52 cards, one per (suit, label index), suit-major. |
| Constants.FreshDeckWellFormed | constants.tsx:20-28 | Every constructed card has a value in 1..13, and its label is the label of that value. |
| Constants.FreshDeckDistinctKeys | constants.tsx:22-30 | No (value, suit) pair occurs twice in the unshuffled deck. |
| Constants.FreshDeckDistinct | constants.tsx:22-30 | The unshuffled deck holds 52 different cards. |
| Constants.FreshDeckComplete | constants.tsx:22-30 | Every suit appears with every value 1..13 in the unshuffled deck. |
| Constants.DealtDeckWellFormed | constants.tsx:18-33 | Any rearrangement of the 52 cards has 52 cards, each with a value in 1..13 and the matching label. |
| Constants.DealtDeckComplete | constants.tsx:18-33 | Any rearrangement of the 52 cards still pairs every suit with every value. |
| Constants.DealtDeckDistinctKeys | constants.tsx:18-33 | Any rearrangement of the 52 cards repeats no (value, suit) pair. |
| Constants.RandomIndex | constants.tsx:38 | `Math.floor(Math.random() * (i + 1))` is an index in [0, i] for every random value in [0, 1). |
| Constants.SwapPermutes | constants.tsx:39 | The destructuring swap keeps the length and the multiset of elements. |
| Constants.SwapDownPermutes | constants.tsx:37-40 | The swap loop, run from any counter down to 1, returns a permutation of its input. |
| Constants.SwapDownFixesAbove | constants.tsx:37-40 | Positions above the loop counter are never touched again. |
| Constants.ShuffleLastSlot | constants.tsx:37-40 | The last slot of the result receives the element at the first drawn index, which lies in [0, n - 1]. |
| Constants.Shuffle | constants.tsx:35-42 | The loop over a copy of the input equals the reference shuffle, keeps the length and keeps the multiset. |
| Constants.GenerateDeck | constants.tsx:18-33 | The generated deck is the shuffled 52-card deck: the same multiset of cards, values in 1..13, no repeated (value, suit) pair, and every pair present. |
| Game.StartGame | App.tsx:22-35 | Starting a game pops the dealt deck's top card. It becomes the current card and the whole history. The score is 0, the status is playing, the table is busy, and the remark reads "Dealing the first card...". Nothing of the previous state is used. |
| Game.Welcome | App.tsx:37-38 | The welcome remark is shown and the busy flag is cleared; cards, score and status are unchanged. |
| Game.BeginGuess | App.tsx:41-60 | A guess is acted upon iff the game is playing, not busy, has a current card and a non-empty deck. It draws exactly the top card. The score rises by one iff the guess is correct. The status becomes lost iff the guess is wrong, won iff it is correct with the new score at least 3, and stays playing iff it is correct with the new score below 3. |
| Game.HandleGuess | App.tsx:41-83 | A rejected guess leaves the state unchanged. Otherwise the deck loses exactly its top card, which becomes the current card and is appended to the history; the prior history is kept as a prefix. The card count is preserved, the busy flag returns to false, the remark is shown, and score and status follow the rule. |
| Game.TieIsCorrect | App.tsx:51-53 | Equal values are correct for both guesses. |
| Game.ExactlyOneGuessWinsUnlessTie | App.tsx:51-53 | HIGHER is correct iff next >= current, and LOWER iff next <= current. Some guess is always correct, and exactly one is when the values differ. |
| Game.BusyTableIgnoresGuesses | App.tsx:42-48 | Once a guess is accepted and the table is busy, a second guess is ignored. |
| Game.InitialValid | App.tsx:9-17 | The initial idle state satisfies the invariant and ignores guesses. |
| Game.StartGameValid | App.tsx:22-38 | Starting from any arrangement of the 52 cards gives a valid game with 51 cards left, before and after the welcome. |
| Game.WelcomeValid | App.tsx:37-38 | Showing the welcome keeps the game valid. |
| Game.ValidCardCount | App.tsx:44-45 | In every dealt game, deck size plus history size is 52. |
| Game.PlayingHasCards | App.tsx:44-46 | A running game has at least 49 cards left, so the empty-deck guard never fires in a valid game, and a running game that is not busy always accepts guesses. |
| Game.HandleGuessValid | App.tsx:41-83 | A guess keeps the invariant: all 52 cards accounted for, the current card last in history, and the score matching the correct guesses and staying below 3 while playing. |
| Game.PlayValid | App.tsx:41-83 | Any sequence of guesses keeps the invariant. |
| Game.DecidedGameIsFinal | App.tsx:42 | A won or lost game ignores every later guess. |
| Game.HistoryOnlyGrows | App.tsx:76 | Guesses never rewrite the cards already turned: the earlier history is a prefix of the later one. |
| Game.CorrectGuessesScore | App.tsx:55-60 | A run of correct guesses adds one point each, and the game is won exactly when the score reaches 3. |
| Game.GameIsDecided | App.tsx:55-60 | A running game is won or lost after at most 3 - score further guesses. |
| Game.FreshGameWinsOnThirdCorrectGuess | App.tsx:22-60 | From a fresh game, three correct guesses win at score 3, and after one or two the game is still playing. |
| Game.InitGame | App.tsx:22-39 | `initGame` with the welcome remark applied gives a valid, playing, not-busy game with score 0, one card turned and 51 left; the turned card and the remaining deck are exactly the deck shuffled with the given random draws. |

## Left out

- JSX rendering, styling, the history shelf (App.tsx:86-229), `components/PlayingCard.tsx` and `getSuitIcon`: presentation only.
- `services/geminiService.ts`: a network call to a remote text generator, including its fallback strings. Each remark is an arbitrary string argument of `Welcome` and `HandleGuess`.
- The 1200 ms `setTimeout` before the commit and the transient `revealedCard` display: UI timing. A guess is one sequential step.
- React's asynchronous `setState`: stale closures, double clicks before `isThinking` propagates, and a late remark arriving after a restart. The model applies each step in sequence.
- Constants.RandomIndex: reals are exact here, so IEEE-754 rounding of `Math.random() * (i + 1)` is not modelled. Uniformity of the shuffle is not stated.
- Constants.Shuffle: the caller's array is untouched by construction, because the input is an immutable sequence and the loop works on its own copy. No separate contract states this.
- Game.StartGame: requires a non-empty deck, matching the source's non-null assertion on `pop()`. `generateDeck` always supplies 52 cards.
- When the deck is empty, `handleGuess` ignores the guess (App.tsx:46), and `Game.BeginGuess` does the same. `Game.PlayingHasCards` shows this cannot happen in a valid game.
