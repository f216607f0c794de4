/** The game's constants and the deck generator: the ordered 52-card deck
    and the Durstenfeld (Fisher-Yates) shuffle applied to a copy of it. */
module Constants {
  import opened Types

  /** Consecutive correct guesses needed to win. */
  const WINNING_SCORE: int := 3

  const SUITS: seq<Suit> := [Spades, Hearts, Diamonds, Clubs]

  /** Card labels; the label at index k belongs to the card of value k + 1. */
  const LABELS: seq<string> := ["A", "2", "3", "4", "5", "6", "7", "8", "9", "10", "J", "Q", "K"]

  predicate Distinct<T(==)>(s: seq<T>) {
    forall i, j :: 0 <= i < j < |s| ==> s[i] != s[j]
  }

  /** The (value, suit) pair that identifies a card in a full deck. */
  function Key(c: Card): (int, Suit) {
    (c.value, c.suit)
  }

  predicate DistinctKeys(s: seq<Card>) {
    forall i, j :: 0 <= i < j < |s| ==> Key(s[i]) != Key(s[j])
  }

  /** A card as the generator builds it: value 1..13 with the matching label. */
  predicate WellFormed(c: Card) {
    1 <= c.value <= 13 && c.face == LABELS[c.value - 1]
  }

  /** The card the generator builds for value v of suit s. */
  function MakeCard(s: Suit, v: int): Card
    requires 1 <= v <= 13
  {
    Card(v, s, LABELS[v - 1])
  }

  /** Position of a suit in SUITS; every suit has one. */
  function SuitIndex(s: Suit): (k: nat)
    ensures k < |SUITS| && SUITS[k] == s
  {
    match s
    case Spades => 0
    case Hearts => 1
    case Diamonds => 2
    case Clubs => 3
  }

  /** The winning score is three; SUITS lists each of the four suits once. */
  lemma ConstantsAsDeclared()
    ensures WINNING_SCORE == 3
    ensures |SUITS| == 4 && Distinct(SUITS) && forall s: Suit :: s in SUITS
  {
    forall s: Suit
      ensures s in SUITS
    {
      assert SUITS[SuitIndex(s)] == s;
    }
  }

  // ---------------------------------------------------------------------
  // Deck construction
  // ---------------------------------------------------------------------

  /** The inner `labels.forEach`: one card per label, in label order. */
  function SuitRow(suit: Suit): seq<Card> {
    seq(|LABELS|, idx requires 0 <= idx < |LABELS| => Card(idx + 1, suit, LABELS[idx]))
  }

  /** The outer `SUITS.forEach`: the rows of the given suits, one after another. */
  function Build(suits: seq<Suit>): seq<Card>
    decreases |suits|
  {
    if |suits| == 0 then [] else SuitRow(suits[0]) + Build(suits[1..])
  }

  /** The deck before shuffling. */
  function FreshDeck(): seq<Card> {
    Build(SUITS)
  }

  lemma {:induction false} BuildLength(suits: seq<Suit>)
    ensures |Build(suits)| == 13 * |suits|
    decreases |suits|
  {
    if |suits| > 0 {
      BuildLength(suits[1..]);
    }
  }

  /** Position k of the built deck holds the card of suit number k / 13
      with label number k % 13. */
  lemma {:induction false} BuildAt(suits: seq<Suit>, k: int)
    requires 0 <= k < 13 * |suits|
    ensures |Build(suits)| == 13 * |suits|
    ensures Build(suits)[k] == Card(k % 13 + 1, suits[k / 13], LABELS[k % 13])
    decreases |suits|
  {
    BuildLength(suits);
    if k >= 13 {
      BuildAt(suits[1..], k - 13);
      assert (k - 13) / 13 == k / 13 - 1 && (k - 13) % 13 == k % 13;
    }
  }

  /** The unshuffled deck has 52 cards: suit-major, label-minor. */
  lemma FreshDeckLayout()
    ensures |FreshDeck()| == 52
    ensures forall k :: 0 <= k < 52 ==> FreshDeck()[k] == Card(k % 13 + 1, SUITS[k / 13], LABELS[k % 13])
  {
    BuildLength(SUITS);
    forall k | 0 <= k < 52
      ensures FreshDeck()[k] == Card(k % 13 + 1, SUITS[k / 13], LABELS[k % 13])
    {
      BuildAt(SUITS, k);
    }
  }

  /** Every card of the unshuffled deck has a value in 1..13 and the label of
      that value. */
  lemma FreshDeckWellFormed()
    ensures forall c :: c in FreshDeck() ==> WellFormed(c)
  {
    FreshDeckLayout();
  }

  /** No (value, suit) pair occurs twice in the unshuffled deck. */
  lemma FreshDeckDistinctKeys()
    ensures DistinctKeys(FreshDeck())
  {
    FreshDeckLayout();
    var d := FreshDeck();
    forall i, j | 0 <= i < j < |d|
      ensures Key(d[i]) != Key(d[j])
    {
      assert i == 13 * (i / 13) + i % 13 && j == 13 * (j / 13) + j % 13;
      if i / 13 == j / 13 {
        assert d[i].value != d[j].value;
      } else {
        assert d[i].suit != d[j].suit;
      }
    }
  }

  /** Every suit meets every value in the unshuffled deck. */
  lemma FreshDeckComplete()
    ensures forall s: Suit, v :: 1 <= v <= 13 ==> MakeCard(s, v) in FreshDeck()
  {
    FreshDeckLayout();
    forall s: Suit, v | 1 <= v <= 13
      ensures MakeCard(s, v) in FreshDeck()
    {
      var k := 13 * SuitIndex(s) + (v - 1);
      assert k / 13 == SuitIndex(s) && k % 13 == v - 1;
      assert FreshDeck()[k] == MakeCard(s, v);
    }
  }

  // ---------------------------------------------------------------------
  // Multiset facts used to carry distinctness across a permutation
  // ---------------------------------------------------------------------

  lemma {:induction false} DistinctCountsAtMostOne<T>(s: seq<T>)
    requires Distinct(s)
    ensures forall x :: multiset(s)[x] <= 1
    decreases |s|
  {
    if |s| > 0 {
      assert Distinct(s[1..]) by {
        forall i, j | 0 <= i < j < |s[1..]|
          ensures s[1..][i] != s[1..][j]
        {
          assert s[1..][i] == s[i + 1] && s[1..][j] == s[j + 1];
        }
      }
      DistinctCountsAtMostOne(s[1..]);
      assert s == [s[0]] + s[1..];
      assert s[0] !in multiset(s[1..]) by {
        forall k | 0 <= k < |s[1..]|
          ensures s[1..][k] != s[0]
        {
          assert s[1..][k] == s[k + 1];
        }
      }
    }
  }

  lemma RepeatCountsTwice<T>(s: seq<T>, i: int, j: int)
    requires 0 <= i < j < |s| && s[i] == s[j]
    ensures multiset(s)[s[i]] >= 2
  {
    assert s == s[..j] + s[j..];
    assert s[i] == s[..j][i];
    assert s[j] == s[j..][0];
  }

  /** A rearrangement of a repetition-free sequence is repetition-free. */
  lemma PermutationKeepsDistinct<T>(a: seq<T>, b: seq<T>)
    requires multiset(a) == multiset(b) && Distinct(a)
    ensures Distinct(b)
  {
    DistinctCountsAtMostOne(a);
    forall i, j | 0 <= i < j < |b|
      ensures b[i] != b[j]
    {
      if b[i] == b[j] {
        RepeatCountsTwice(b, i, j);
        assert false;
      }
    }
  }

  lemma FreshDeckDistinct()
    ensures Distinct(FreshDeck())
  {
    FreshDeckDistinctKeys();
  }

  /** A rearrangement of the unshuffled deck has 52 cards, each with a value
      in 1..13 and the label of that value. */
  lemma DealtDeckWellFormed(d: seq<Card>)
    requires multiset(d) == multiset(FreshDeck())
    ensures |d| == 52
    ensures forall c :: c in d ==> WellFormed(c)
  {
    FreshDeckLayout();
    FreshDeckWellFormed();
    assert |d| == |multiset(d)| == |multiset(FreshDeck())|;
    forall c | c in d
      ensures WellFormed(c)
    {
      assert c in multiset(d);
    }
  }

  /** A rearrangement of the unshuffled deck holds every (value, suit) pair. */
  lemma DealtDeckComplete(d: seq<Card>)
    requires multiset(d) == multiset(FreshDeck())
    ensures forall s: Suit, v :: 1 <= v <= 13 ==> MakeCard(s, v) in d
  {
    FreshDeckComplete();
    forall s: Suit, v | 1 <= v <= 13
      ensures MakeCard(s, v) in d
    {
      assert MakeCard(s, v) in multiset(FreshDeck());
    }
  }

  /** A rearrangement of the unshuffled deck repeats no (value, suit) pair. */
  lemma DealtDeckDistinctKeys(d: seq<Card>)
    requires multiset(d) == multiset(FreshDeck())
    ensures DistinctKeys(d)
  {
    DealtDeckWellFormed(d);
    FreshDeckDistinct();
    PermutationKeepsDistinct(FreshDeck(), d);
    forall i, j | 0 <= i < j < |d|
      ensures Key(d[i]) != Key(d[j])
    {
      assert d[i] in d && d[j] in d;
      assert d[i] != d[j];
    }
  }

  // ---------------------------------------------------------------------
  // Shuffle
  // ---------------------------------------------------------------------

  /** `draws` stands for the results of `Math.random`, one per value of the
      loop counter (index i is used when the counter is i; index 0 is never
      used): each lies in [0, 1). */
  predicate RandomDraws(draws: seq<real>, n: int) {
    |draws| == n && forall k :: 0 <= k < |draws| ==> 0.0 <= draws[k] < 1.0
  }

  /** `Math.floor(r * (i + 1))`: the index swapped with position i. */
  function RandomIndex(r: real, i: nat): (j: nat)
    requires 0.0 <= r < 1.0
    ensures j <= i
  {
    var n := (i + 1) as real;
    assert 0.0 <= r * n < n by {
      assert r * n < 1.0 * n;
    }
    (r * n).Floor
  }

  /** The destructuring swap `[a[i], a[j]] = [a[j], a[i]]`. */
  function Swap<T>(s: seq<T>, i: int, j: int): seq<T>
    requires 0 <= i < |s| && 0 <= j < |s|
  {
    s[i := s[j]][j := s[i]]
  }

  lemma SwapPermutes<T>(s: seq<T>, i: int, j: int)
    requires 0 <= i < |s| && 0 <= j < |s|
    ensures |Swap(s, i, j)| == |s|
    ensures multiset(Swap(s, i, j)) == multiset(s)
  {
  }

  /** The iterations of the shuffle loop for counters i, i - 1, ..., 1. */
  function SwapDown<T>(s: seq<T>, draws: seq<real>, i: int): seq<T>
    requires RandomDraws(draws, |s|) && i < |s|
    decreases i
  {
    if i <= 0 then s
    else SwapDown(Swap(s, i, RandomIndex(draws[i], i)), draws, i - 1)
  }

  /** Reference definition of the shuffle: every iteration, from the last
      index down to 1. */
  function ShuffleSpec<T>(s: seq<T>, draws: seq<real>): seq<T>
    requires RandomDraws(draws, |s|)
  {
    SwapDown(s, draws, |s| - 1)
  }

  /** Each pass of the loop rearranges the elements and nothing else. */
  lemma {:induction false} SwapDownPermutes<T>(s: seq<T>, draws: seq<real>, i: int)
    requires RandomDraws(draws, |s|) && i < |s|
    ensures |SwapDown(s, draws, i)| == |s|
    ensures multiset(SwapDown(s, draws, i)) == multiset(s)
    decreases i
  {
    if i > 0 {
      var j := RandomIndex(draws[i], i);
      SwapPermutes(s, i, j);
      SwapDownPermutes(Swap(s, i, j), draws, i - 1);
    }
  }

  /** Positions above the loop counter are never touched again. */
  lemma {:induction false} SwapDownFixesAbove<T>(s: seq<T>, draws: seq<real>, i: int)
    requires RandomDraws(draws, |s|) && i < |s|
    ensures |SwapDown(s, draws, i)| == |s|
    ensures forall k :: i < k < |s| && 0 < k ==> SwapDown(s, draws, i)[k] == s[k]
    decreases i
  {
    SwapDownPermutes(s, draws, i);
    if i > 0 {
      var j := RandomIndex(draws[i], i);
      SwapDownFixesAbove(Swap(s, i, j), draws, i - 1);
    }
  }

  /** The last slot of the shuffled sequence receives the element at the
      drawn index j <= |s| - 1 and keeps it. */
  lemma ShuffleLastSlot<T>(s: seq<T>, draws: seq<real>)
    requires RandomDraws(draws, |s|) && |s| >= 2
    ensures |ShuffleSpec(s, draws)| == |s|
    ensures ShuffleSpec(s, draws)[|s| - 1] == s[RandomIndex(draws[|s| - 1], |s| - 1)]
  {
    var i := |s| - 1;
    var j := RandomIndex(draws[i], i);
    SwapDownPermutes(s, draws, i);
    SwapDownFixesAbove(Swap(s, i, j), draws, i - 1);
  }

  /** `shuffle`: works on a copy of the input (the caller's sequence is a
      value and cannot change) and swaps position i with a drawn index j in
      [0, i], for i from the last index down to 1. */
  method Shuffle<T>(input: seq<T>, draws: seq<real>) returns (output: seq<T>)
    requires RandomDraws(draws, |input|)
    ensures output == ShuffleSpec(input, draws)
    ensures |output| == |input|
    ensures multiset(output) == multiset(input)
  {
    var a := input;
    var i := |a| - 1;
    while i > 0
      invariant -1 <= i < |a| == |input|
      invariant |input| > 0 ==> 0 <= i
      invariant SwapDown(a, draws, i) == ShuffleSpec(input, draws)
      invariant multiset(a) == multiset(input)
      decreases i
    {
      var j := RandomIndex(draws[i], i);
      SwapPermutes(a, i, j);
      a := Swap(a, i, j);
      i := i - 1;
    }
    output := a;
  }

  /** The deck `generateDeck` deals for a given run of random draws. */
  function Dealt(draws: seq<real>): seq<Card>
    requires RandomDraws(draws, 52)
  {
    FreshDeckLayout();
    ShuffleSpec(FreshDeck(), draws)
  }

  /** `generateDeck`: the 52 cards, shuffled. */
  method GenerateDeck(draws: seq<real>) returns (deck: seq<Card>)
    requires RandomDraws(draws, 52)
    ensures deck == ShuffleSpec(FreshDeck(), draws)
    ensures |deck| == 52
    ensures multiset(deck) == multiset(FreshDeck())
    ensures forall c :: c in deck ==> WellFormed(c)
    ensures DistinctKeys(deck)
    ensures forall s: Suit, v :: 1 <= v <= 13 ==> MakeCard(s, v) in deck
  {
    FreshDeckLayout();
    deck := Shuffle(FreshDeck(), draws);
    DealtDeckWellFormed(deck);
    DealtDeckComplete(deck);
    DealtDeckDistinctKeys(deck);
  }
}
