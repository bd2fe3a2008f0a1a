/**
 * The card codec: integer card ids, their suit, rank and score value,
 * deck construction and the in-place Fisher–Yates shuffle.
 *
 * A card id is a natural number; the game plays with two 54-card copies
 * (ids 0..107). Within a copy, positions 0..51 are the four suits of
 * thirteen ranks and positions 52 and 53 are the two jokers.
 */
module Deck {

  /** A card id. */
  type Card = nat

  datatype CardSuit = Clubs | Hearts | Diamond | Spade | Joker

  /** Ace = 1, Two = 2, ..., King = 13, the numbering of the source's rank enum. */
  type CardRank = r: int | 1 <= r <= 13 witness 1

  /** Number of cards in one copy of the deck (52 suited cards and two jokers). */
  const CopySize: nat := 54
  /** Number of ranks per suit. */
  const SuitSize: nat := 13

  const Ace: CardRank := 1
  const Two: CardRank := 2
  const Three: CardRank := 3
  const Nine: CardRank := 9

  /** The position of a suit in the source's suit enumeration. */
  function SuitIndex(s: CardSuit): nat
  {
    match s
    case Clubs => 0
    case Hearts => 1
    case Diamond => 2
    case Spade => 3
    case Joker => 4
  }

  /** Position of a card inside its own 54-card copy. */
  function GetCardNumberInDeck(card: Card): (n: nat)
    ensures n < CopySize
    ensures card == CopySize * (card / CopySize) + n
  {
    card % CopySize
  }

  /** Jokers are the last two positions of every copy. */
  predicate IsJoker(card: Card)
    ensures IsJoker(card) <==> GetCardNumberInDeck(card) in {52, 53}
  {
    GetCardNumberInDeck(card) > 51
  }

  function GetCardSuit(card: Card): (s: CardSuit)
    ensures s == Joker <==> IsJoker(card)
    ensures s != Joker ==> SuitIndex(s) == GetCardNumberInDeck(card) / SuitSize
  {
    var singleDeckNumber := GetCardNumberInDeck(card);
    if IsJoker(singleDeckNumber) then Joker
    else
      var suitId := singleDeckNumber / SuitSize;
      if suitId == 0 then Clubs
      else if suitId == 1 then Hearts
      else if suitId == 2 then Diamond
      else if suitId == 3 then Spade
      // The source throws here; no card id reaches this branch.
      else assert false; Joker
  }

  /** The rank of a suited card; the source throws for a joker. */
  function GetCardRank(card: Card): (r: CardRank)
    requires !IsJoker(card)
    ensures SuitSize * SuitIndex(GetCardSuit(card)) + (r - 1) == GetCardNumberInDeck(card)
  {
    GetCardNumberInDeck(card) % SuitSize + 1
  }

  /** Score value: joker 20, Ace 15, Two 20, Three..Nine face value, Ten..King 10. */
  function GetCardValue(card: Card): (v: nat)
    ensures 3 <= v <= 10 || v == 15 || v == 20
    ensures IsJoker(card) ==> v == 20
    ensures !IsJoker(card) ==> (v == 15 <==> GetCardRank(card) == Ace)
    ensures !IsJoker(card) && GetCardRank(card) == Two ==> v == 20
    ensures !IsJoker(card) && Three <= GetCardRank(card) <= Nine ==> v == GetCardRank(card)
    ensures !IsJoker(card) && GetCardRank(card) > Nine ==> v == 10
  {
    var s := GetCardSuit(card);
    if s == Joker then 20
    else
      var r := GetCardRank(card);
      if r == Ace then 15
      else if r == Two then 20
      else if Three <= r <= Nine then r
      else 10
  }

  /** The id of the suited card of the given face in the given copy. */
  function CardOf(copy: nat, suit: CardSuit, rank: CardRank): Card
    requires suit != Joker
  {
    CopySize * copy + SuitSize * SuitIndex(suit) + (rank - 1)
  }

  /** Decoding the id of a face gives back that face. */
  lemma DecodeCardOf(copy: nat, suit: CardSuit, rank: CardRank)
    requires suit != Joker
    ensures !IsJoker(CardOf(copy, suit, rank))
    ensures GetCardSuit(CardOf(copy, suit, rank)) == suit
    ensures GetCardRank(CardOf(copy, suit, rank)) == rank
  {
    var p := SuitSize * SuitIndex(suit) + (rank - 1);
    assert p < 52;
    assert GetCardNumberInDeck(CardOf(copy, suit, rank)) == p;
  }

  /** Every suited card is determined by its copy, suit and rank. */
  lemma CardOfDecode(card: Card)
    requires !IsJoker(card)
    ensures GetCardSuit(card) != Joker
    ensures CardOf(card / CopySize, GetCardSuit(card), GetCardRank(card)) == card
  {
    var n := GetCardNumberInDeck(card);
    assert n == SuitSize * (n / SuitSize) + n % SuitSize;
  }

  /** The copies of a card in different decks share joker status, suit and rank. */
  lemma {:induction false} SameFaceAcrossCopies(card: Card, k: nat)
    ensures GetCardNumberInDeck(card + CopySize * k) == GetCardNumberInDeck(card)
    ensures IsJoker(card + CopySize * k) == IsJoker(card)
    ensures GetCardSuit(card + CopySize * k) == GetCardSuit(card)
    ensures !IsJoker(card) ==> GetCardRank(card + CopySize * k) == GetCardRank(card)
  {
    if k > 0 {
      SameFaceAcrossCopies(card, k - 1);
      assert card + CopySize * k == (card + CopySize * (k - 1)) + CopySize;
    }
  }

  /** Exactly two cards of every copy are jokers: positions 52 and 53. */
  lemma TwoJokersPerCopy(copy: nat)
    ensures forall card :: CopySize * copy <= card < CopySize * (copy + 1) ==>
      (IsJoker(card) <==> card == CopySize * copy + 52 || card == CopySize * copy + 53)
    ensures (set card | CopySize * copy <= card < CopySize * (copy + 1) && IsJoker(card))
      == {CopySize * copy + 52, CopySize * copy + 53}
  {
    forall card | CopySize * copy <= card < CopySize * (copy + 1)
      ensures GetCardNumberInDeck(card) == card - CopySize * copy
    {
      SameFaceAcrossCopies(card - CopySize * copy, copy);
    }
  }

  /** The ordered deck [0, 1, ..., deckSize - 1]. */
  function CreateDeck(deckSize: nat): (deck: seq<Card>)
    ensures |deck| == deckSize
    ensures forall i :: 0 <= i < deckSize ==> deck[i] == i
  {
    seq(deckSize, i => i)
  }

  /** The ordered deck holds every id below its size exactly once. */
  lemma {:induction false} CreateDeckHoldsEachCardOnce(deckSize: nat)
    ensures forall card: Card :: multiset(CreateDeck(deckSize))[card] == if card < deckSize then 1 else 0
  {
    if deckSize > 0 {
      CreateDeckHoldsEachCardOnce(deckSize - 1);
      assert CreateDeck(deckSize) == CreateDeck(deckSize - 1) + [deckSize - 1];
    }
  }

  /**
   * The indices the engine's random source yields while a deck of n cards is
   * shuffled: the k-th draw is `Math.floor(Math.random() * (n - k))`, so it
   * lies below n - k.
   */
  predicate AreShufflePicks(picks: seq<nat>, n: nat)
  {
    n <= |picks| && forall k :: 0 <= k < n ==> picks[k] < n - k
  }

  function Swap(s: seq<Card>, i: nat, j: nat): (r: seq<Card>)
    requires i < |s| && j < |s|
    ensures |r| == |s| && r[i] == s[j] && r[j] == s[i]
    ensures forall k :: 0 <= k < |s| && k != i && k != j ==> r[k] == s[k]
    ensures multiset(r) == multiset(s)
  {
    s[i := s[j]][j := s[i]]
  }

  /**
   * The Fisher–Yates shuffle of the first m positions of s: the pick numbered
   * |s| - m is an index below m, which is swapped with position m - 1.
   */
  function FisherYates(s: seq<Card>, picks: seq<nat>, m: nat): (r: seq<Card>)
    requires m <= |s| && AreShufflePicks(picks, |s|)
    ensures |r| == |s| && multiset(r) == multiset(s)
    decreases m
  {
    if m == 0 then s
    else
      var j := picks[|s| - m];
      FisherYates(Swap(s, m - 1, j), picks, m - 1)
  }

  /** Shuffles the deck in place and returns the same array. */
  method ShuffleDeck(deck: array<Card>, picks: seq<nat>) returns (shuffled: array<Card>)
    requires AreShufflePicks(picks, deck.Length)
    modifies deck
    ensures shuffled == deck
    ensures deck[..] == FisherYates(old(deck[..]), picks, deck.Length)
    ensures multiset(deck[..]) == multiset(old(deck[..]))
  {
    var m := deck.Length;
    while m != 0
      invariant 0 <= m <= deck.Length
      invariant FisherYates(deck[..], picks, m) == FisherYates(old(deck[..]), picks, deck.Length)
    {
      ghost var before := deck[..];
      var r := picks[deck.Length - m];
      m := m - 1;
      var c := deck[m];
      deck[m] := deck[r];
      deck[r] := c;
      assert deck[..] == Swap(before, m, r);
    }
    shuffled := deck;
  }

  /** A new array holding a shuffle of [0, deckSize). */
  method CreateShuffledDeck(deckSize: nat, picks: seq<nat>) returns (deck: array<Card>)
    requires AreShufflePicks(picks, deckSize)
    ensures fresh(deck)
    ensures deck[..] == FisherYates(CreateDeck(deckSize), picks, deckSize)
    ensures forall card: Card :: multiset(deck[..])[card] == if card < deckSize then 1 else 0
  {
    var orderedDeck := new Card[deckSize](i => i);
    assert orderedDeck[..] == CreateDeck(deckSize);
    deck := ShuffleDeck(orderedDeck, picks);
    CreateDeckHoldsEachCardOnce(deckSize);
  }
}
