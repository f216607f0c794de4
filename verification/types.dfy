/** The data model of the game: cards, suits, guesses, statuses and the
    aggregate game state shown by the table. */
module Types {

  /** The four French suits. */
  datatype Suit = Spades | Hearts | Diamonds | Clubs

  /** A playing card. `value` runs from 1 (Ace) to 13 (King); `face` is the label
      text printed on the card ("A", "2", ..., "10", "J", "Q", "K"). */
  datatype Card = Card(value: int, suit: Suit, face: string)

  datatype GameStatus = Idle | Playing | Won | Lost

  datatype Guess = Higher | Lower

  /** A value that may be absent; stands for `CardData | null`. */
  datatype Option<T> = None | Some(value: T)

  /** Everything the table shows about one game. The deck is a stack whose
      top is its LAST element; `history` lists every card turned so far, in
      the order they were turned. */
  datatype GameState = GameState(
    deck: seq<Card>,
    history: seq<Card>,
    currentCard: Option<Card>,
    score: int,
    status: GameStatus,
    dealerComment: string,
    isThinking: bool)

  /** The top of a deck, i.e. the card `pop` returns. */
  function Top(deck: seq<Card>): Card
    requires |deck| > 0
  {
    deck[|deck| - 1]
  }
}
