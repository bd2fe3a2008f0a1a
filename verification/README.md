# telefunken-backend game core in Dafny

This project models the game-rule core of the telefunken-backend server. The
server runs Telefunken, a rummy-family card game. The core has six parts.

- **Card codec** (`Deck`). Cards are natural numbers. Two 54-card copies make
  the 108-card deck. A card's position in its copy is `card % 54`.
  - Positions 52 and 53 are jokers.
  - Every other position `p` has suit `p / 13` (Clubs, Hearts, Diamond,
    Spade) and rank `p % 13 + 1` (Ace .. King).
  - A card's score is 20 for a joker, 15 for an Ace, 20 for a Two, face value
    for Three to Nine, and 10 for Ten to King.
  - The deck is `[0 .. n-1]`, shuffled in place by Fisher–Yates. The random
    draws are a parameter (`picks`).
- **Combination validator** (`Combinations`).
  - Rank comparator, set test, raw-number run test, single-gap search
    (`FindGap`, a loop method) and same-suit test.
  - `IsValidCombination`: 3 to 5 cards, at most one joker, a "pure" mode
    without wildcards, and Twos acting as wildcards when no joker is present.
- **Deal-constraint table** (`Constraints`). The two deals of the game and the
  combination record builder.
- **Game session** (`GameSession.Game`). A class whose methods update its
  fields in place:
  - the fields are the deck, roster, hands, melds, discard pile, dealer and
    turn pointer;
  - the methods join players, start the game (deal 13 cards each, the player
    after the dealer draws one), execute a move (lay down melds, discard) and
    advance the turn.
  - Card conservation and the cyclic turn order are proved about the value
    functions the methods are specified by (`DealHands`, `PlayOutcome`,
    `NextInRoster`).
- **Registry** (`GameStorage.Storage`). Counters hand out fresh player,
  connection and game ids, and maps keep players, sockets and games. It also
  builds the per-player projection of a game sent to a client (`ClientView`).
  That projection shows only the sizes of the other players' hands.
- **Printout** (`Print`). The debugging text of a list of cards. The model
  proves it can be read back into the faces of the cards, in order.

The source's quirks are modelled as written, each with a lemma that shows it:

- `isValidRun` compares raw card numbers, so a joker-free run of three
  without a Two that crosses the two deck copies is refused
  (`CrossCopyRunRefused`). Such a run that holds a Two (Ace-Two-Three,
  Two-Three-Four) is still accepted in normal mode, because the Two is set
  aside and the other two cards pass the one-gap search
  (`CrossCopyRunWithTwoAccepted`). With a joker, a cross-copy pair also
  passes the one-gap search (`CrossCopyPairWithJoker`).
- A meld holding card 0 is never accepted (`CanMeldMeaning`).
- `addPlayer` admits a fifth player (`FifthPlayerJoins`).
- A meld may repeat a card (`RepeatedCardMeldInflates`).
- A roster listing a player twice loses cards when dealt
  (`RepeatedPlayerLosesCards`).

Card conservation is therefore stated under the conditions the source needs:
a roster without repeats, melds without repeated cards, and hands empty before
dealing (the first start only). Dealing overwrites each listed hand, so a
restart loses the cards that were held.

Facts about the code that a reader of the game's rules might not expect:

- Jokers are the cards with `card % 54 > 51`, positions 52 and 53; position
  51 is the King of Spades.
- The validator checks 3 to 5 cards, at most one joker, at most one missing
  rank and at most one Two set aside as a wildcard. It does not require
  distinct suits in a set and returns only a boolean, with no ordering of the
  meld.
- A move is not all-or-nothing: the acceptable melds and a held discard are
  applied, and the rest of the move is skipped.

## Model

| member | source | states |
|---|---|---|
| Deck.GetCardNumberInDeck | src/game/deck.ts:31 | the position in the copy is below 54 and is the remainder of the card by 54 |
| Deck.GetCardSuit | src/game/deck.ts:44-63 | the suit is Joker exactly for jokers; otherwise its index is the position divided by 13, so the throw is unreachable |
| Deck.DecodeCardOf | src/game/deck.ts:44-74 | the card built from a copy, a suit and a rank is no joker and decodes back to that suit and rank |
| Deck.CardOfDecode | src/game/deck.ts:64-74 | every non-joker card is rebuilt from its copy, suit and rank, so its rank is the position mod 13 plus 1, in 1..13 |
| Deck.SameFaceAcrossCopies | src/game/deck.ts:27-31 | cards 54·k apart have the same position, joker status, suit and rank |
| Deck.TwoJokersPerCopy | src/game/deck.ts:27-29 | in each 54-card copy exactly positions 52 and 53 are jokers |
| Deck.IsJoker | src/game/deck.ts:27-29 | a card is a joker iff its position in its copy is 52 or 53 |
| Deck.GetCardRank | src/game/deck.ts:64-74 | defined only for non-jokers (the source throws on a joker); the position is 13 times the suit index plus the rank minus one |
| Deck.GetCardValue | src/game/deck.ts:33-42 | joker 20, Ace 15, Two 20, Three..Nine face value, Ten..King 10, and every value is in 3..10, 15 or 20 |
| Deck.CreateDeck | src/game/deck.ts:90-92 | the deck has the requested size and holds card i at index i |
| Deck.CreateDeckHoldsEachCardOnce | src/game/deck.ts:90-92 | the deck of size n holds each card below n once and nothing else |
| Deck.FisherYates | src/game/deck.ts:76-88 | the Fisher–Yates pass keeps the length and the multiset of cards |
| Deck.ShuffleDeck | src/game/deck.ts:76-88 | the loop shuffles the array in place into the Fisher–Yates permutation of its old contents and returns the same array |
| Deck.CreateShuffledDeck | src/game/deck.ts:94-97 | a new array that is the shuffled ordered deck and holds each card below the size once |
| Combinations.RankSortFn | src/game/combinations.ts:14-24 | 1 when the first card is a joker, else -1 when the second is, else the sign of the rank difference |
| Combinations.RankSortFnOrdersSuitedCards | src/game/combinations.ts:14-24 | on non-jokers the comparator is antisymmetric and transitive |
| Combinations.InsertByRank | src/game/combinations.ts:100 | inserting keeps the other cards and adds the new one |
| Combinations.InsertByRankSorted | src/game/combinations.ts:100 | inserting a non-joker into rank-sorted non-jokers keeps them rank-sorted |
| Combinations.SortByRank | src/game/combinations.ts:100 | the sort is a permutation, and it sorts non-jokers by rank |
| Combinations.SortByRankKeepsSorted | src/game/combinations.ts:100 | already sorted non-jokers are left unchanged |
| Combinations.Jokers | src/game/combinations.ts:91 | the joker filter keeps only jokers |
| Combinations.NonJokers | src/game/combinations.ts:91-97 | the non-joker filter holds no joker, and its size plus the joker count is the input size |
| Combinations.JokerFilterMembers | src/game/combinations.ts:91-97 | the two filters keep exactly the jokers and exactly the non-jokers |
| Combinations.IsValidSet | src/game/combinations.ts:28-35 | true iff all cards have one rank; suits are not compared |
| Combinations.IsValidRunIsInterval | src/game/combinations.ts:37-45 | the run test holds iff the raw card numbers are consecutive (vacuous for at most one card) |
| Combinations.AreCardsSameSuit | src/game/combinations.ts:74-78 | true iff all cards share one suit |
| Combinations.GapValidSpan | src/game/combinations.ts:48-72 | a gap-valid sequence has strictly increasing ranks spanning its length minus one or its length |
| Combinations.FindGap | src/game/combinations.ts:48-72 | `valid` iff ranks strictly increase by steps of 1 or 2 with at most one 2; `pos` is the index of that 2-step, or 0 |
| Combinations.RemoveAt | src/game/combinations.ts:135-136 | the copy without index i keeps the other cards in order and loses exactly that card |
| Combinations.IsValidCombination | src/game/combinations.ts:86-144 | an accepted combination has 3 to 5 cards and at most one joker, and none in pure mode |
| Combinations.SameRankAccepted | src/game/combinations.ts:102-108 | 3 to 5 cards whose non-jokers share one rank, with at most one joker (none in pure mode), are accepted |
| Combinations.OneJokerBranches | src/game/combinations.ts:108-123 | with one joker, normal mode accepts exactly when the sorted rest is a set, a raw run, or same-suit and gap-valid |
| Combinations.OneJokerCombination | src/game/combinations.ts:102-123 | with exactly one joker: refused in pure mode; otherwise accepted iff the non-jokers share a rank, or share a suit and pass the gap search |
| Combinations.PureCombinationShape | src/game/combinations.ts:102-109 | a pure combination has no joker and is a same-rank group or a same-suit group of consecutive ranks |
| Combinations.PureIsStricter | src/game/combinations.ts:102-143 | whatever pure mode accepts, normal mode accepts |
| Combinations.NoWildcardPureIsSame | src/game/combinations.ts:102-143 | without jokers and Twos the two modes agree |
| Combinations.SortedSuitedCombination | src/game/combinations.ts:86-144 | for 3 to 5 sorted non-jokers: accepted iff a set, a raw run, or (not pure) some Two set aside leaves a set or a one-gap same-suit run |
| Combinations.TwoWildcardShape | src/game/combinations.ts:124-141 | a joker-free combination that only normal mode accepts holds a Two whose removal leaves a set or a one-gap same-suit run |
| Combinations.RawRunIsSuitedRun | src/game/combinations.ts:37-45 | a sorted raw run of non-jokers is same-suit with consecutive ranks |
| Combinations.SameCopySuitedRunIsRawRun | src/game/combinations.ts:37-45 | consecutive same-suit ranks inside one copy form a raw run |
| Combinations.SameCopyRunAccepted | src/game/combinations.ts:37-45 | three consecutive cards of one suit from one copy are a pure combination |
| Combinations.CrossCopyPairWithJoker | src/game/combinations.ts:37-45 | two consecutive same-suit cards from different copies fail the raw run test, yet with a joker they are accepted in normal mode |
| Combinations.CrossCopyRunWithTwoAccepted | src/game/combinations.ts:124-141 | Ace-Two-Three and Two-Three-Four of one suit with the top card from the other copy are accepted in normal mode and refused in pure mode |
| Combinations.LowRunWithTwo | src/game/combinations.ts:124-141 | three same-suit cards of consecutive ranks from an Ace or Two up whose top two ids are not adjacent are accepted in normal mode only |
| Combinations.LowRunShape | src/game/combinations.ts:37-45 | three cards of consecutive ranks whose top two ids are not adjacent are sorted, not a set and not a raw run |
| Combinations.LowRunTwoSetAside | src/game/combinations.ts:124-141 | in three same-suit cards of consecutive ranks from an Ace or Two up, some Two can be set aside |
| Combinations.TwoInFrontOfPair | src/game/combinations.ts:124-141 | a Two in front of two same-suit cards one or two ranks apart can be set aside as a wildcard |
| Combinations.TwoInsidePair | src/game/combinations.ts:124-141 | a Two between two same-suit cards one or two ranks apart can be set aside as a wildcard |
| Combinations.SuitedPair | src/game/combinations.ts:48-72 | two same-suit cards one or two ranks apart pass the one-gap search |
| Combinations.CrossCopyRunRefused | src/game/combinations.ts:37-45 | from a Three up to a King, three consecutive same-suit faces with the top card from the other copy are refused even in normal mode |
| Combinations.TwoFillsGap | src/game/combinations.ts:124-141 | a Two with two same-suit cards whose ranks are two apart, the lower at least a Three, is accepted, but not in pure mode |
| Combinations.JokerFillsGap | src/game/combinations.ts:115-123 | a joker with two same-suit cards two ranks apart (one missing rank) is accepted, but not in pure mode |
| Combinations.RepeatedFaceSetAccepted | src/game/combinations.ts:28-35 | a set may repeat a face from the other copy and even in pure mode is accepted |
| Constraints.BuildCombinationConstraint | src/game/constraints.ts:8-10 | the record carries the given size and purity, purity defaulting to false |
| Constraints.DealConstraintsTable | src/game/constraints.ts:2-20 | two deals: two combinations of 3, then one of 4, none pure, none without size |
| GameSession.IndexOf | src/game/game.ts:150-152 | -1 iff absent, otherwise an index holding the element |
| GameSession.IndexOfFirst | src/game/game.ts:150-152 | no earlier index holds the element |
| GameSession.Find | src/game/game.ts:154-156 | None iff absent, otherwise the element itself |
| GameSession.NextInRoster | src/game/game.ts:141-146 | the next player is on the roster, and is the first player when the turn holder is not |
| GameSession.TurnsCycle | src/game/game.ts:135-146 | on a roster without repeats, k turns after player i come to player (i+k) mod n, and n turns come back |
| GameSession.CanMeldMeaning | src/game/game.ts:107-115 | a meld is allowed iff every card is in the hand, card 0 is absent and the validator accepts it |
| GameSession.Without | src/game/game.ts:85-87 | the filtered hand keeps exactly the hand's cards not in the meld |
| GameSession.WithoutCounts | src/game/game.ts:85-87 | every copy of a melded card leaves the hand; other counts are kept |
| GameSession.RemoveFirst | src/game/game.ts:96-99 | one occurrence of the discard leaves the hand |
| GameSession.ApplyMelds | src/game/game.ts:82-89 | the meld loop lays at most the melds asked for and never grows the hand |
| GameSession.PlayOutcome | src/game/game.ts:80-101 | a move discards at most one card, lays at most the melds asked for, and the hand left plus the discard is no bigger than the hand |
| GameSession.ApplyMeldsSound | src/game/game.ts:82-89 | each laid meld is one asked for, valid, free of card 0 and taken from the hand; the hand only shrinks |
| GameSession.PlayOutcomeSound | src/game/game.ts:80-101 | as above, and the discard happens iff the card is still in the hand after melding |
| GameSession.ApplyMeldsConserves | src/game/game.ts:82-89 | with a hand and melds without repeats, the hand before equals the hand after plus the laid melds |
| GameSession.PlayConservesCards | src/game/game.ts:80-101 | with a hand and melds without repeats, hand before = hand after + laid melds + discard |
| GameSession.RepeatedCardMeldInflates | src/game/game.ts:82-89 | the meld [c, c, c] from a one-card hand is laid, putting three cards on the table for one |
| GameSession.SharedCardMeldedOnce | src/game/game.ts:82-89 | a later meld sharing a card with a laid one sees the updated hand and is skipped |
| GameSession.DealHands | src/game/game.ts:121-125 | dealing never grows the deck |
| GameSession.DealHandsKeys | src/game/game.ts:121-125 | every listed player gets a hand; other hands are untouched |
| GameSession.DealHandsSlices | src/game/game.ts:121-125 | on a roster without repeats the i-th player gets the i-th block of 13 from the top and the rest is the deck's bottom |
| GameSession.DealHandsConserves | src/game/game.ts:121-125 | on a roster without repeats, deck before = deck after + the dealt hands |
| GameSession.RepeatedPlayerLosesCards | src/game/game.ts:121-125 | a player listed twice keeps only the second block; the first block is lost |
| GameSession.FirstDealSizes | src/game/game.ts:121-125 | dealing 2 to 5 players on a roster without repeats from 108 cards leaves cards in the deck and gives each 13 |
| GameSession.DrawMovesCard | src/game/game.ts:135-139 | on a roster without repeats, drawing the top card to a listed player conserves deck plus hands |
| GameSession.StartConservesCards | src/game/game.ts:57-72 | on a roster without repeats, the deck before dealing equals the deck after the first draw plus the dealt hands; hands held before are overwritten |
| GameSession.Game.constructor | src/game/game.ts:33-44 | waiting for players, owner alone, round -1, no dealer or turn, empty hand, melds and discard pile, 108 cards each once |
| GameSession.Game.AddPlayer | src/game/game.ts:46-55 | accepted iff waiting and at most 4 players; then appends the player with an empty hand and melds; otherwise nothing changes |
| GameSession.Game.IsFull | src/game/game.ts:74-76 | a full game admits a player only with exactly 4 on the roster, and a waiting game that is not full admits one |
| GameSession.Game.CanGameBeStarted | src/game/game.ts:127-129 | a well-formed game can be started unless its owner is alone |
| GameSession.Game.FullGameAdmitsOneMore | src/game/game.ts:46-76 | a game of 4 waiting players is full yet admits one more |
| GameSession.Game.StartGame | src/game/game.ts:57-72 | refused and unchanged below 2 players; otherwise in progress, round 0, dealer from the pick, turn the next player, dealt hands, that player draws the top card |
| GameSession.Game.DealPlayerCards | src/game/game.ts:121-125 | hands and deck become those of the deal from the deck's top; nothing else changes |
| GameSession.Game.CanPlayerMeld | src/game/game.ts:107-115 | true iff every card is in the hand and nonzero and the validator accepts the meld |
| GameSession.Game.CanPlayerDiscard | src/game/game.ts:117-119 | true iff the card is in the hand |
| GameSession.Game.ExecutePlayerMove | src/game/game.ts:80-101 | the player's hand, melds and the discard pile become those of the move's outcome; nothing else changes |
| GameSession.Game.LayDownMelds | src/game/game.ts:82-89 | the loop lays each acceptable meld in order against the updated hand, as the meld outcome says |
| GameSession.Game.GetNextDraw | src/game/game.ts:131-133 | the deck's last card, or none when the deck is empty |
| GameSession.Game.GetPlayerIndex | src/game/game.ts:150-152 | -1 iff not on the roster, otherwise the first index holding the player |
| GameSession.Game.IsPlayerInGame | src/game/game.ts:154-156 | true iff the player is on the roster |
| GameSession.Game.GetNextTurnPlayer | src/game/game.ts:141-146 | the next player is on the roster, and is the first when the turn holder is not |
| GameSession.Game.Advance | src/game/game.ts:135-139 | the deck loses its top card, the turn moves to the next player and that player's hand gains the card; nothing else changes |
| GameSession.FifthPlayerJoins | src/game/game.ts:46-55 | four joins after the owner all succeed, the game is full with five players, and a sixth is refused |
| GameSession.TwoPlayerStart | src/game/game.ts:57-72 | a two-player game starts; the turn holder has 14 cards, the dealer 13 and the deck 81 |
| GameStorage.ClientView | src/game/storage.ts:53-79 | other players appear only as hand sizes, the requester's own hand in full, and each listed player's record |
| GameStorage.ViewHidesOtherHands | src/game/storage.ts:59-72 | two games differing only in the contents of other players' hands look the same to the requester |
| GameStorage.Storage.constructor | src/game/storage.ts:15-22 | counters at 0, maps empty |
| GameStorage.Storage.AddPlayer | src/game/storage.ts:24-28 | returns the old counter, a fresh id above all earlier ones, recorded with an empty name; only the player counter and map change |
| GameStorage.Storage.GetNextPlayerID | src/game/storage.ts:30-32 | post-increment of the player counter |
| GameStorage.Storage.AddConnection | src/game/storage.ts:34-39 | the socket is stored under a fresh connection id; only that counter and map change |
| GameStorage.Storage.CreateGame | src/game/storage.ts:41-45 | a new game owned by the player under a fresh id, which is then valid; only that counter and map change |
| GameStorage.Storage.GetNextGameID | src/game/storage.ts:47-49 | post-increment of the game counter |
| GameStorage.Storage.IsValidGame | src/game/storage.ts:94-96 | true iff the id was handed out |
| GameStorage.Storage.GatherPlayerDataFromGame | src/game/storage.ts:81-92 | the loop maps each listed player to their registry record |
| GameStorage.Storage.ExtractClientGameData | src/game/storage.ts:53-79 | the loop builds exactly the projection `ClientView` |
| Print.Entry | src/utils/print.ts:11-15 | each entry starts with a space and ends with its only comma |
| Print.GetNiceStringSetOfCards | src/utils/print.ts:9-19 | the text starts with '[' and ends with ']' |
| Print.CardsText | src/utils/print.ts:10-16 | the reduce only appends: its start value is a prefix of the result |
| Print.CardsTextIsEntries | src/utils/print.ts:10-16 | the reduce appends one entry per card, in input order |
| Print.PrintoutRoundTrip | src/utils/print.ts:9-19 | reading the printout back gives the faces of the cards in order |
| Print.PrintoutDeterminesFaces | src/utils/print.ts:9-19 | two lists print alike only if they list the same faces in order |
| Print.PrintoutExamples | src/utils/print.ts:10-18 | the empty list prints "[]" and a joker "[ Joker,]" |

## Left out

- I/O is not part of this model: the WebSocket server, message parsing and dispatch, socket sends and the timed AI loop (`src/index.ts`, `src/connection/socket.ts`, `src/messageHandlers.ts`, `src/messages/`). The only turn check lives in the message handlers, so `Game` has none.
- There is no buy, deal progression, extra round or deal-constraint gating: the code has none. The constraint table is modelled as a constant.
- `src/game/ai.ts` is a placeholder policy and is not part of this model.
- `Math.random` is a parameter: the shuffle's draws are `picks` (each below the remaining length) and the dealer is `dealerPick` (below the roster size). The distribution is not modelled.
- `console.log` in the validator is a logging side effect and is left out.
- `assertIsDefined` calls become preconditions: the game exists, and every listed player is registered.
- The unused interfaces `CombinationConstraint`, `RunGap` and `CombinationEvaulation` in `combinations.ts` are not modelled; no size constraint is enforced anywhere.
- Cards are natural numbers. Negative or fractional card ids cannot arise from the deck and are not modelled.
- `Array.prototype.sort` with the rank comparator is a stable insertion sort (`SortByRank`). That is what the engine's stable sort gives on non-jokers, the only cards sorted.
- `gatherPlayerDataFromGame` reads the module-level `storage` instance. It is modelled as reading `this`, the only registry there is.
- The projection fields `deal`, `dealConstraintCompliance` and `dealConstraints` are absent. `Game` has no such fields, so in the source `game.dealConstraintCompliance[playerId]` (src/game/storage.ts:76) throws a TypeError on every call and `extractClientGameData` never returns. `ClientView` and `ExtractClientGameData` model the evidently intended projection without those three fields.
- The projection's `players` map carries whole `ServerPlayer` records, including connection id and AI flag, as the source does; the client-side `Player` type is only a narrower view.
- Deck.GetCardRank: requires a non-joker. The source throws an Error for a joker; the model makes that a precondition, and every caller holds a non-joker.
- GameSession.Game.ExecutePlayerMove: requires the player to have a hand. The source throws a TypeError on a missing hand when a meld or discard is looked at.
- GameSession.Game.StartGame: requires a non-empty deck after dealing when the game can start. `startGame` has no state check, so a started game can be started again, and the repeated start re-deals from the remaining deck. A game reached through the message handlers holds at most 4 players, so its second start (right after the first) finds 55 cards and deals 52, leaving 3, and a third start empties the deck. Only a `Game` driven directly with 5 players reaches the case where the second start finds 42 cards, deals 13, 13, 13, 3 and 0 and empties the deck; the source then pushes `undefined` into the turn player's hand. The requires excludes such a start, so the model says nothing about it.
- GameSession.Game.Advance: requires a non-empty deck. The source would push `undefined` into the hand.
- GameSession.Game.CanPlayerMeld: requires the player to have a hand unless the meld is empty, for the same TypeError reason.
- GameSession.Game.constructor: states that the deck has 108 cards, each once, but not which Fisher–Yates permutation it is (`Deck.CreateShuffledDeck` states that).
- Card conservation (`PlayConservesCards`, `DealHandsConserves`, `StartConservesCards`) is proved only for rosters and melds without repeats, and for dealing into hands that are empty before (the first start only). The source breaks it otherwise, as `RepeatedCardMeldInflates` and `RepeatedPlayerLosesCards` show; a restart overwrites the hands and loses the cards that were held.
- Sockets are opaque values of a type parameter.
- Integer widths: JavaScript numbers are doubles. Ids and counters stay far below 2^53 in any game, so they are unbounded naturals here.
