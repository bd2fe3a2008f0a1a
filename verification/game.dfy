/**
 * One game session: a shuffled 108-card deck, a roster of player ids, a hand
 * and a list of melds per player, a discard pile and a turn pointer.
 *
 * The class `Game` updates its fields in place; each of its state-changing
 * methods is proved against a function on values (DealHands, PlayOutcome,
 * NextInRoster), and what the game promises is proved about those functions.
 */
module GameSession {
  import opened Deck
  import opened Combinations

  type PlayerId = int

  /** The id used for "no player" (dealer and turn before the game starts). */
  const InvalidPlayerId: PlayerId := -1

  type Meld = seq<Card>

  datatype GameState = Invalid | WaitingForPlayers | InProgress | Finished

  const MaxNumPlayers: nat := 4
  const MinNumPlayers: nat := 2
  const NumCards: nat := CopySize * 2
  const DealSize: nat := 13

  /** One turn's play: melds to lay down and one card to discard. */
  datatype PlayerMove = PlayerMove(melds: seq<Meld>, discards: Card)

  datatype Option<T> = None | Some(value: T)

  /** No element occurs twice. */
  predicate Distinct<T(==)>(s: seq<T>)
  {
    forall i, j :: 0 <= i < j < |s| ==> s[i] != s[j]
  }

  // ---------------------------------------------------------------------
  // Searching lists the way the engine's array methods do.
  // ---------------------------------------------------------------------

  /** `findIndex` for equality: the first index holding x, or -1. */
  function IndexOf<T(==)>(s: seq<T>, x: T): (r: int)
    ensures -1 <= r < |s|
    ensures r == -1 <==> x !in s
    ensures 0 <= r ==> s[r] == x
  {
    if s == [] then -1
    else if s[0] == x then 0
    else
      var r := IndexOf(s[1..], x);
      if r == -1 then -1 else r + 1
  }

  /** The index IndexOf finds is the first one holding x. */
  lemma {:induction false} IndexOfFirst<T>(s: seq<T>, x: T)
    ensures forall k :: 0 <= k < IndexOf(s, x) ==> s[k] != x
  {
    if s != [] && s[0] != x {
      IndexOfFirst(s[1..], x);
    }
  }

  /** `find` for equality: the element itself, or undefined. */
  function Find<T(==)>(s: seq<T>, x: T): (r: Option<T>)
    ensures r.None? <==> x !in s
    ensures r.Some? ==> r.value == x
  {
    if s == [] then None
    else if s[0] == x then Some(s[0])
    else Find(s[1..], x)
  }

  /** The engine's truthiness of a `find` result: undefined and the card 0 are falsy. */
  predicate Truthy(found: Option<Card>)
  {
    found.Some? && found.value != 0
  }

  // ---------------------------------------------------------------------
  // Turn order.
  // ---------------------------------------------------------------------

  /**
   * The roster entry after the first occurrence of `turn`, cyclically; an id
   * not on the roster (such as InvalidPlayerId) is followed by the first entry.
   */
  function NextInRoster(players: seq<PlayerId>, turn: PlayerId): (next: PlayerId)
    requires |players| > 0
    ensures next in players
    ensures turn !in players ==> next == players[0]
  {
    // The successor index is at most |players|, so taking it modulo
    // |players| only wraps the one past the end back to 0.
    var next := IndexOf(players, turn) + 1;
    players[if next < |players| then next else 0]
  }

  /** The turn after k advances starting from `turn`. */
  function TurnAfter(players: seq<PlayerId>, turn: PlayerId, k: nat): (t: PlayerId)
    requires |players| > 0
    decreases k
  {
    if k == 0 then turn else TurnAfter(players, NextInRoster(players, turn), k - 1)
  }

  /** Euclidean division has one quotient and one remainder. */
  lemma ModUnique(x: nat, n: nat, q: int, r: int)
    requires n > 0 && 0 <= r < n && x == q * n + r
    ensures x % n == r
  {
    var q0, r0 := x / n, x % n;
    assert x == q0 * n + r0;
    assert (q - q0) * n == r0 - r;
    if q > q0 {
      MulAtLeast(q - q0, n);
    } else if q < q0 {
      MulAtLeast(q0 - q, n);
    }
  }

  lemma MulAtLeast(d: int, n: nat)
    requires d >= 1 && n > 0
    ensures d * n >= n
  {
  }

  /**
   * On a roster without repeated ids, k advances from the player at index i
   * reach the player at index (i + k) mod n: every player gets one turn in
   * every n advances, in roster order, and n advances come back to the start.
   */
  lemma TurnsCycle(players: seq<PlayerId>, i: nat, k: nat)
    requires Distinct(players) && i < |players|
    ensures TurnAfter(players, players[i], k) == players[(i + k) % |players|]
    ensures TurnAfter(players, players[i], |players|) == players[i]
  {
    var n := |players|;
    DistinctAdvancesByOne(players);
    TurnAfterIterates(players, players[i], k);
    AdvanceCycle(Advancer(players), players, i, k);
    IndexAfterIsMod(i, k, n);
    TurnAfterIterates(players, players[i], n);
    AdvanceCycle(Advancer(players), players, i, n);
    IndexAfterIsMod(i, n, n);
    ModUnique(i + n, n, 1, i);
  }

  /** The index after x on a cyclic roster of n entries. */
  function Succ(x: nat, n: nat): nat
  {
    if x + 1 < n then x + 1 else 0
  }

  /** The index reached from i after k steps on a cyclic roster of n entries. */
  function IndexAfter(i: nat, k: nat, n: nat): (j: nat)
    requires i < n
    ensures j < n
    decreases k
  {
    if k == 0 then i else IndexAfter(Succ(i, n), k - 1, n)
  }

  /** Stepping k times round a cycle of n is adding k modulo n. */
  lemma {:induction false} IndexAfterIsMod(i: nat, k: nat, n: nat)
    requires i < n
    ensures IndexAfter(i, k, n) == (i + k) % n
    decreases k
  {
    if k == 0 {
      ModUnique(i, n, 0, i);
    } else {
      IndexAfterIsMod(Succ(i, n), k - 1, n);
      if i + 1 < n {
        ModUnique(i + 1, n, 0, i + 1);
      } else {
        ModUnique(i + 1, n, 1, 0);
      }
      ModAddLeft(i + 1, k - 1, n);
    }
  }

  /** One advance, as a function on player ids. */
  function Advancer(players: seq<PlayerId>): PlayerId -> PlayerId
    requires |players| > 0
  {
    turn => NextInRoster(players, turn)
  }

  /** k applications of `step` starting from `turn`. */
  function Iterate(step: PlayerId -> PlayerId, turn: PlayerId, k: nat): PlayerId
    decreases k
  {
    if k == 0 then turn else Iterate(step, step(turn), k - 1)
  }

  /** k advances are k applications of one advance. */
  lemma {:induction false} TurnAfterIterates(players: seq<PlayerId>, turn: PlayerId, k: nat)
    requires |players| > 0
    ensures TurnAfter(players, turn, k) == Iterate(Advancer(players), turn, k)
    decreases k
  {
    if k > 0 {
      TurnAfterIterates(players, NextInRoster(players, turn), k - 1);
    }
  }

  /** `step` takes each roster entry to the entry at the next index, cyclically. */
  predicate AdvancesByOne(step: PlayerId -> PlayerId, players: seq<PlayerId>)
  {
    forall x :: 0 <= x < |players| ==> step(players[x]) == players[Succ(x, |players|)]
  }

  lemma {:induction false} AdvanceCycle(step: PlayerId -> PlayerId, players: seq<PlayerId>, i: nat, k: nat)
    requires i < |players| && AdvancesByOne(step, players)
    ensures Iterate(step, players[i], k) == players[IndexAfter(i, k, |players|)]
    decreases k
  {
    if k > 0 {
      AdvanceCycle(step, players, Succ(i, |players|), k - 1);
    }
  }

  /** A roster without repeats advances by one index at a time. */
  lemma DistinctAdvancesByOne(players: seq<PlayerId>)
    requires Distinct(players) && |players| > 0
    ensures AdvancesByOne(Advancer(players), players)
  {
    forall x | 0 <= x < |players|
      ensures NextInRoster(players, players[x]) == players[Succ(x, |players|)]
    {
      NextOfDistinct(players, x);
    }
  }

  /** On a roster without repeats, the player after index i is at the next index, cyclically. */
  lemma NextOfDistinct(players: seq<PlayerId>, i: nat)
    requires Distinct(players) && i < |players|
    ensures NextInRoster(players, players[i]) == players[Succ(i, |players|)]
  {
    assert IndexOf(players, players[i]) == i;
  }

  /** Reducing the left summand first does not change the remainder. */
  lemma ModAddLeft(a: nat, b: nat, n: nat)
    requires n > 0
    ensures (a % n + b) % n == (a + b) % n
  {
    var q := a / n;
    assert a == q * n + a % n;
    var s := a % n + b;
    var q1, r1 := s / n, s % n;
    assert s == q1 * n + r1;
    ModUnique(a + b, n, q + q1, r1);
  }

  // ---------------------------------------------------------------------
  // Melding and discarding.
  // ---------------------------------------------------------------------

  /**
   * canPlayerMeld on a hand: every meld card must be found in the hand by a
   * truthy `find`, and the meld must be a valid (impure) combination.
   */
  predicate CanMeld(hand: seq<Card>, meld: Meld)
  {
    && (forall i :: 0 <= i < |meld| ==> Truthy(Find(hand, meld[i])))
    && IsValidCombination(meld)
  }

  /**
   * A meld can be laid down exactly when all its cards are in the hand, none
   * of them is the card 0, and it is a valid combination; the card 0 is never
   * melded because its `find` result is falsy.
   */
  lemma CanMeldMeaning(hand: seq<Card>, meld: Meld)
    ensures CanMeld(hand, meld) <==>
      (forall c :: c in meld ==> c in hand) && 0 !in meld && IsValidCombination(meld)
  {
    if (forall c :: c in meld ==> c in hand) && 0 !in meld {
      forall i | 0 <= i < |meld| ensures Truthy(Find(hand, meld[i])) {
        assert meld[i] in meld;
      }
    }
    if CanMeld(hand, meld) {
      forall c | c in meld ensures c in hand && c != 0 {
        var i :| 0 <= i < |meld| && meld[i] == c;
        assert Truthy(Find(hand, meld[i]));
      }
    }
  }

  /** The hand filtered down to the cards the meld does not mention. */
  function Without(hand: seq<Card>, meld: Meld): (r: seq<Card>)
    ensures |r| <= |hand|
    ensures forall c :: c in r <==> c in hand && c !in meld
  {
    if hand == [] then []
    else (if Find(meld, hand[0]).None? then [hand[0]] else []) + Without(hand[1..], meld)
  }

  /** Filtering drops every copy of the meld's cards and keeps every copy of the others. */
  lemma {:induction false} WithoutCounts(hand: seq<Card>, meld: Meld)
    ensures forall c :: multiset(Without(hand, meld))[c] == if c in meld then 0 else multiset(hand)[c]
  {
    if hand != [] {
      WithoutCounts(hand[1..], meld);
      assert hand == [hand[0]] + hand[1..];
    }
  }

  /** The hand with the first copy of `card` spliced out. */
  function RemoveFirst(hand: seq<Card>, card: Card): (r: seq<Card>)
    requires card in hand
    ensures |r| == |hand| - 1
    ensures multiset(r) == multiset(hand) - multiset{card}
  {
    var i := IndexOf(hand, card);
    assert hand == hand[..i] + [card] + hand[i + 1..];
    hand[..i] + hand[i + 1..]
  }

  /** The hand left and the melds laid down, in order, after trying each meld in turn. */
  datatype MeldsResult = MeldsResult(hand: seq<Card>, melded: seq<Meld>)

  /**
   * Each meld is laid down when it can be, against the hand as the earlier
   * melds of the same move left it; a meld that cannot be is skipped.
   */
  function ApplyMelds(hand: seq<Card>, melds: seq<Meld>): (r: MeldsResult)
    ensures |r.melded| <= |melds|
    ensures |r.hand| <= |hand|
    decreases |melds|
  {
    if melds == [] then MeldsResult(hand, [])
    else if CanMeld(hand, melds[0]) then
      var rest := ApplyMelds(Without(hand, melds[0]), melds[1..]);
      MeldsResult(rest.hand, [melds[0]] + rest.melded)
    else ApplyMelds(hand, melds[1..])
  }

  /** The hand left, the melds laid down and the card discarded (none or one). */
  datatype MoveResult = MoveResult(hand: seq<Card>, melded: seq<Meld>, discarded: seq<Card>)

  /** executePlayerMove on one hand: the melds, then the discard if the card is still held. */
  function PlayOutcome(hand: seq<Card>, move: PlayerMove): (r: MoveResult)
    ensures |r.discarded| <= 1 && |r.melded| <= |move.melds|
    ensures |r.hand| + |r.discarded| <= |hand|
  {
    var m := ApplyMelds(hand, move.melds);
    if Find(m.hand, move.discards).Some? then
      MoveResult(RemoveFirst(m.hand, move.discards), m.melded, [move.discards])
    else
      MoveResult(m.hand, m.melded, [])
  }

  /** All the cards of a list of melds. */
  function Flatten(melds: seq<Meld>): (cards: multiset<Card>)
    ensures |cards| == SumOfSizes(melds)
  {
    if melds == [] then multiset{} else multiset(melds[0]) + Flatten(melds[1..])
  }

  function SumOfSizes(melds: seq<Meld>): nat
  {
    if melds == [] then 0 else |melds[0]| + SumOfSizes(melds[1..])
  }

  lemma {:induction false} FlattenAppend(a: seq<Meld>, b: seq<Meld>)
    ensures Flatten(a + b) == Flatten(a) + Flatten(b)
  {
    if a != [] {
      FlattenAppend(a[1..], b);
      calc {
        Flatten(a + b);
        multiset((a + b)[0]) + Flatten((a + b)[1..]);
        { assert (a + b)[0] == a[0] && (a + b)[1..] == a[1..] + b; }
        multiset(a[0]) + Flatten(a[1..] + b);
        multiset(a[0]) + Flatten(a[1..]) + Flatten(b);
      }
    } else {
      assert a + b == b;
    }
  }

  /**
   * What the melds of a move lay down: each is one of the move's melds, a
   * valid combination, free of the card 0 and drawn from the hand; the hand
   * only loses cards, and keeps none of the melded ones.
   */
  lemma {:induction false} ApplyMeldsSound(hand: seq<Card>, melds: seq<Meld>)
    ensures var r := ApplyMelds(hand, melds);
      && (forall c :: c in r.hand ==> c in hand)
      && (forall i :: 0 <= i < |r.melded| ==>
            && r.melded[i] in melds
            && IsValidCombination(r.melded[i])
            && 0 !in r.melded[i]
            && (forall c :: c in r.melded[i] ==> c in hand && c !in r.hand))
    decreases |melds|
  {
    if melds != [] {
      var m := melds[0];
      if CanMeld(hand, m) {
        CanMeldMeaning(hand, m);
        var rest := ApplyMelds(Without(hand, m), melds[1..]);
        ApplyMeldsSound(Without(hand, m), melds[1..]);
        var r := ApplyMelds(hand, melds);
        assert r.melded == [m] + rest.melded;
        forall i | 0 <= i < |r.melded|
          ensures r.melded[i] in melds
        {
          if i > 0 {
            assert r.melded[i] == rest.melded[i - 1];
          }
        }
      } else {
        ApplyMeldsSound(hand, melds[1..]);
      }
    }
  }

  /**
   * A move only ever removes cards from the hand; the melds it lays down are
   * sound as above; the discard happens exactly when the card is still held
   * after melding, and then it is the move's card.
   */
  lemma PlayOutcomeSound(hand: seq<Card>, move: PlayerMove)
    ensures var r := PlayOutcome(hand, move);
      && (forall c :: c in r.hand ==> c in hand)
      && (forall i :: 0 <= i < |r.melded| ==>
            r.melded[i] in move.melds && IsValidCombination(r.melded[i]) && 0 !in r.melded[i]
            && (forall c :: c in r.melded[i] ==> c in hand))
      && (r.discarded == [move.discards] <==> move.discards in ApplyMelds(hand, move.melds).hand)
      && (r.discarded == [] <==> move.discards !in ApplyMelds(hand, move.melds).hand)
  {
    ApplyMeldsSound(hand, move.melds);
    var m := ApplyMelds(hand, move.melds);
    if move.discards in m.hand {
      var r := RemoveFirst(m.hand, move.discards);
      forall c | c in r ensures c in hand {
        assert c in multiset(r);
      }
    }
  }

  /**
   * Cards are conserved by melding when the hand holds no card twice and no
   * meld names a card twice: the hand before is the hand after plus the
   * melded cards.
   */
  lemma {:induction false} ApplyMeldsConserves(hand: seq<Card>, melds: seq<Meld>)
    requires Distinct(hand)
    requires forall i :: 0 <= i < |melds| ==> Distinct(melds[i])
    ensures multiset(hand) == multiset(ApplyMelds(hand, melds).hand) + Flatten(ApplyMelds(hand, melds).melded)
    ensures Distinct(ApplyMelds(hand, melds).hand)
    decreases |melds|
  {
    if melds != [] {
      var m := melds[0];
      if CanMeld(hand, m) {
        CanMeldMeaning(hand, m);
        var left := Without(hand, m);
        MeldOfDistinctHand(hand, m);
        ApplyMeldsConserves(left, melds[1..]);
        var rest := ApplyMelds(left, melds[1..]);
        assert ApplyMelds(hand, melds).melded == [m] + rest.melded;
        assert Flatten([m] + rest.melded) == multiset(m) + Flatten(rest.melded) by {
          assert ([m] + rest.melded)[1..] == rest.melded;
        }
      } else {
        ApplyMeldsConserves(hand, melds[1..]);
      }
    }
  }

  /**
   * Removing a meld of distinct cards, all held, from a hand of distinct cards
   * splits the hand into what is left and the meld.
   */
  lemma MeldOfDistinctHand(hand: seq<Card>, m: Meld)
    requires Distinct(hand) && Distinct(m)
    requires forall c :: c in m ==> c in hand
    ensures multiset(hand) == multiset(Without(hand, m)) + multiset(m)
    ensures Distinct(Without(hand, m))
  {
    WithoutCounts(hand, m);
    DistinctCounts(hand);
    DistinctCounts(m);
    FilterKeepsDistinct(hand, m);
  }

  /** A list without repeats holds every element at most once. */
  lemma {:induction false} DistinctCounts(s: seq<Card>)
    requires Distinct(s)
    ensures forall c :: multiset(s)[c] == if c in s then 1 else 0
  {
    if s != [] {
      DistinctTail(s);
      DistinctCounts(s[1..]);
      assert s == [s[0]] + s[1..];
    }
  }

  /** The tail of a list without repeats has none and does not hold the head. */
  lemma DistinctTail<T>(s: seq<T>)
    requires Distinct(s) && |s| > 0
    ensures Distinct(s[1..]) && s[0] !in s[1..]
  {
  }

  /** Filtering a list without repeats leaves a list without repeats. */
  lemma {:induction false} FilterKeepsDistinct(hand: seq<Card>, m: Meld)
    requires Distinct(hand)
    ensures Distinct(Without(hand, m))
  {
    if hand != [] {
      var tail := hand[1..];
      DistinctTail(hand);
      FilterKeepsDistinct(tail, m);
      var w := Without(tail, m);
      assert hand[0] !in w;
      var r := Without(hand, m);
      if Find(m, hand[0]).None? {
        assert r == [hand[0]] + w;
        forall i, j | 0 <= i < j < |r| ensures r[i] != r[j] {
          if i == 0 {
            assert r[j] == w[j - 1] && r[j] in w;
          } else {
            assert r[i] == w[i - 1] && r[j] == w[j - 1];
          }
        }
      } else {
        assert r == w;
      }
    }
  }

  /**
   * A whole move conserves cards when the hand holds no card twice and no
   * meld names a card twice: hand before = hand after + melded + discarded.
   */
  lemma PlayConservesCards(hand: seq<Card>, move: PlayerMove)
    requires Distinct(hand)
    requires forall i :: 0 <= i < |move.melds| ==> Distinct(move.melds[i])
    ensures var r := PlayOutcome(hand, move);
      multiset(hand) == multiset(r.hand) + Flatten(r.melded) + multiset(r.discarded)
  {
    ApplyMeldsConserves(hand, move.melds);
  }

  /**
   * A meld naming the same held card three times is laid down although the
   * hand held that card once: one card leaves the hand, three reach the
   * table. Cards are conserved only for melds without repeats.
   */
  lemma RepeatedCardMeldInflates(c: Card)
    requires !IsJoker(c) && c != 0
    ensures var r := PlayOutcome([c], PlayerMove([[c, c, c]], c));
      && r.hand == [] && r.melded == [[c, c, c]] && r.discarded == []
      && |Flatten(r.melded)| == 3
  {
    TripleAccepted(c);
    CanMeldMeaning([c], [c, c, c]);
    assert Without([c], [c, c, c]) == [];
    assert ApplyMelds([c], [[c, c, c]]) == MeldsResult([], [[c, c, c]]);
  }

  /** Three copies of one suited card form an accepted set. */
  lemma TripleAccepted(c: Card)
    requires !IsJoker(c)
    ensures IsValidCombination([c, c, c])
  {
    assert NoJokers([c, c, c]);
    NonJokersOfSuited([c, c, c]);
    assert SameRankGroup([c, c, c]);
    SameRankAccepted([c, c, c], false);
  }

  /**
   * Later melds of a move see the hand the earlier ones left: once a meld is
   * laid down, a second meld reusing one of its cards is skipped.
   */
  lemma SharedCardMeldedOnce(hand: seq<Card>, m1: Meld, m2: Meld, c: Card)
    requires CanMeld(hand, m1) && c in m1 && c in m2
    ensures ApplyMelds(hand, [m1, m2]).melded == [m1]
  {
    var left := Without(hand, m1);
    assert c !in left;
    CanMeldMeaning(left, m2);
    assert [m1, m2][1..] == [m2];
    assert ApplyMelds(left, [m2]) == ApplyMelds(left, []);
  }

  // ---------------------------------------------------------------------
  // Dealing.
  // ---------------------------------------------------------------------

  /** The hands and the deck after a deal. */
  datatype Dealt = Dealt(hands: map<PlayerId, seq<Card>>, deck: seq<Card>)

  /**
   * dealPlayerCards: in roster order each player's hand is replaced by the
   * last DealSize cards of the deck (all of it when fewer remain).
   */
  function DealHands(hands: map<PlayerId, seq<Card>>, deck: seq<Card>, players: seq<PlayerId>): (d: Dealt)
    ensures |d.deck| <= |deck|
    decreases |players|
  {
    if players == [] then Dealt(hands, deck)
    else
      var cut := if |deck| >= DealSize then |deck| - DealSize else 0;
      DealHands(hands[players[0] := deck[cut..]], deck[..cut], players[1..])
  }

  /**
   * A deal gives a hand to every listed player, keeps every other hand, and
   * gives no hand to anyone else.
   */
  lemma {:induction false} DealHandsKeys(hands: map<PlayerId, seq<Card>>, deck: seq<Card>, players: seq<PlayerId>)
    ensures forall p :: p in DealHands(hands, deck, players).hands <==> p in hands || p in players
    ensures forall p :: p in hands && p !in players ==> DealHands(hands, deck, players).hands[p] == hands[p]
    decreases |players|
  {
    if players != [] {
      var cut := if |deck| >= DealSize then |deck| - DealSize else 0;
      DealHandsKeys(hands[players[0] := deck[cut..]], deck[..cut], players[1..]);
      forall p ensures p in players <==> p == players[0] || p in players[1..] {
        assert players == [players[0]] + players[1..];
      }
    }
  }

  /** The multiset union of the hands of the listed players. */
  function HandsOf(hands: map<PlayerId, seq<Card>>, players: seq<PlayerId>): multiset<Card>
    requires forall i :: 0 <= i < |players| ==> players[i] in hands
  {
    if players == [] then multiset{} else multiset(hands[players[0]]) + HandsOf(hands, players[1..])
  }

  /** The hands of players off the list do not count. */
  lemma {:induction false} HandsOfIgnoresOthers(hands: map<PlayerId, seq<Card>>, players: seq<PlayerId>, p: PlayerId, h: seq<Card>)
    requires forall i :: 0 <= i < |players| ==> players[i] in hands
    requires p !in players
    ensures HandsOf(hands[p := h], players) == HandsOf(hands, players)
  {
    if players != [] {
      HandsOfIgnoresOthers(hands, players[1..], p, h);
    }
  }

  /**
   * With a deck large enough and no repeated ids, the player at roster index i
   * receives the i-th block of DealSize cards counted from the end of the
   * deck, and the deck keeps what lies before the dealt blocks.
   */
  lemma DealHandsSlices(hands: map<PlayerId, seq<Card>>, deck: seq<Card>, players: seq<PlayerId>)
    requires Distinct(players) && DealSize * |players| <= |deck|
    ensures var d := DealHands(hands, deck, players);
      && d.deck == deck[..|deck| - DealSize * |players|]
      && forall i :: 0 <= i < |players| ==>
           DealSize * (i + 1) <= |deck| && players[i] in d.hands &&
           d.hands[players[i]] == deck[|deck| - DealSize * (i + 1) .. |deck| - DealSize * i]
  {
    DealtRest(hands, deck, players);
    forall i | 0 <= i < |players|
      ensures DealSize * (i + 1) <= |deck|
      ensures players[i] in DealHands(hands, deck, players).hands
      ensures DealHands(hands, deck, players).hands[players[i]] == deck[|deck| - DealSize * (i + 1) .. |deck| - DealSize * i]
    {
      DealtTo(hands, deck, players, i);
    }
  }

  /** The deck keeps what lies before the dealt blocks. */
  lemma {:induction false} DealtRest(hands: map<PlayerId, seq<Card>>, deck: seq<Card>, players: seq<PlayerId>)
    requires DealSize * |players| <= |deck|
    ensures DealHands(hands, deck, players).deck == deck[..|deck| - DealSize * |players|]
    decreases |players|
  {
    if players != [] {
      var cut := |deck| - DealSize;
      var tail := players[1..];
      assert DealSize * |players| == DealSize * |tail| + DealSize;
      DealtRest(hands[players[0] := deck[cut..]], deck[..cut], tail);
    }
  }

  /** The player at roster index i receives block i counted from the end of the deck. */
  lemma {:induction false} DealtTo(hands: map<PlayerId, seq<Card>>, deck: seq<Card>, players: seq<PlayerId>, i: nat)
    requires Distinct(players) && i < |players| && DealSize * |players| <= |deck|
    ensures DealSize * (i + 1) <= |deck|
    ensures players[i] in DealHands(hands, deck, players).hands
    ensures DealHands(hands, deck, players).hands[players[i]] == deck[|deck| - DealSize * (i + 1) .. |deck| - DealSize * i]
    decreases i
  {
    var cut := |deck| - DealSize;
    var tail := players[1..];
    DistinctTail(players);
    BlockWithin(i, |players|);
    var h1 := hands[players[0] := deck[cut..]];
    assert DealHands(hands, deck, players) == DealHands(h1, deck[..cut], tail);
    DealHandsKeys(h1, deck[..cut], tail);
    if i > 0 {
      assert DealSize * |players| == DealSize * |tail| + DealSize;
      DealtTo(h1, deck[..cut], tail, i - 1);
      assert players[i] == tail[i - 1];
      DealtBlock(deck, i);
    }
  }

  lemma BlockWithin(i: nat, n: nat)
    requires i < n
    ensures DealSize * i + DealSize == DealSize * (i + 1) <= DealSize * n
  {
  }

  /** Block i - 1 of the deck left after one deal is block i of the deck before it. */
  lemma DealtBlock(deck: seq<Card>, i: nat)
    requires 0 < i && DealSize * (i + 1) <= |deck|
    ensures var rest := deck[..|deck| - DealSize];
      rest[|rest| - DealSize * i .. |rest| - DealSize * (i - 1)]
        == deck[|deck| - DealSize * (i + 1) .. |deck| - DealSize * i]
  {
    assert DealSize * (i + 1) == DealSize * i + DealSize;
    assert DealSize * (i - 1) + DealSize == DealSize * i;
  }

  /**
   * With no repeated ids, dealing loses and creates no card: the deck before
   * is the deck after plus the dealt hands.
   */
  lemma {:induction false} DealHandsConserves(hands: map<PlayerId, seq<Card>>, deck: seq<Card>, players: seq<PlayerId>)
    requires Distinct(players)
    ensures forall i :: 0 <= i < |players| ==> players[i] in DealHands(hands, deck, players).hands
    ensures var d := DealHands(hands, deck, players);
      multiset(deck) == multiset(d.deck) + HandsOf(d.hands, players)
    decreases |players|
  {
    DealHandsKeys(hands, deck, players);
    if players != [] {
      var cut := if |deck| >= DealSize then |deck| - DealSize else 0;
      var tail := players[1..];
      DistinctTail(players);
      var h1 := hands[players[0] := deck[cut..]];
      DealHandsConserves(h1, deck[..cut], tail);
      DealHandsKeys(h1, deck[..cut], tail);
      var d := DealHands(hands, deck, players);
      assert d == DealHands(h1, deck[..cut], tail);
      assert d.hands[players[0]] == deck[cut..];
      assert deck == deck[..cut] + deck[cut..];
    }
  }

  /**
   * With a repeated id the second deal to that player overwrites the first:
   * dealing [p, p] from 26 cards leaves p with 13 cards and 13 cards vanish.
   */
  lemma RepeatedPlayerLosesCards(hands: map<PlayerId, seq<Card>>, deck: seq<Card>, p: PlayerId)
    requires |deck| == 2 * DealSize
    ensures var d := DealHands(hands, deck, [p, p]);
      d.deck == [] && p in d.hands && d.hands[p] == deck[..DealSize]
  {
    var h1 := hands[p := deck[DealSize..]];
    var rest := deck[..DealSize];
    assert [p, p][1..] == [p];
    assert DealHands(hands, deck, [p, p]) == DealHands(h1, rest, [p]);
    assert rest[0..] == rest && rest[..0] == [];
    assert DealHands(h1, rest, [p]) == DealHands(h1[p := rest], [], []);
  }

  /**
   * The first start of a game with a fresh 108-card deck and 2 to 5 distinct
   * players: each player is dealt 13 cards and cards remain for the first draw.
   */
  lemma FirstDealSizes(hands: map<PlayerId, seq<Card>>, deck: seq<Card>, players: seq<PlayerId>)
    requires |deck| == NumCards && Distinct(players)
    requires MinNumPlayers <= |players| <= MaxNumPlayers + 1
    ensures var d := DealHands(hands, deck, players);
      && |d.deck| == NumCards - DealSize * |players| > 0
      && forall p :: p in players ==> p in d.hands && |d.hands[p]| == DealSize
  {
    DealHandsSlices(hands, deck, players);
    forall p | p in players
      ensures p in DealHands(hands, deck, players).hands && |DealHands(hands, deck, players).hands[p]| == DealSize
    {
      var i :| 0 <= i < |players| && players[i] == p;
      BlockWithin(i, |players|);
    }
  }

  /** Appending a card to the hand of one listed player adds just that card. */
  lemma {:induction false} HandsOfAdd(hands: map<PlayerId, seq<Card>>, players: seq<PlayerId>, p: PlayerId, c: Card)
    requires Distinct(players) && p in players
    requires forall i :: 0 <= i < |players| ==> players[i] in hands
    ensures HandsOf(hands[p := hands[p] + [c]], players) == HandsOf(hands, players) + multiset{c}
  {
    var h := hands[p := hands[p] + [c]];
    DistinctTail(players);
    if players[0] == p {
      assert p !in players[1..];
      HandsOfIgnoresOthers(hands, players[1..], p, hands[p] + [c]);
    } else {
      assert p in players[1..];
      HandsOfAdd(hands, players[1..], p, c);
    }
  }

  /**
   * Drawing the last card of the deck into the hand of a listed player moves
   * it: the deck and the listed hands hold the same cards before and after.
   */
  lemma DrawMovesCard(hands: map<PlayerId, seq<Card>>, deck: seq<Card>, players: seq<PlayerId>, p: PlayerId)
    requires Distinct(players) && p in players && deck != []
    requires forall i :: 0 <= i < |players| ==> players[i] in hands
    ensures multiset(deck[..|deck| - 1]) + HandsOf(hands[p := hands[p] + [deck[|deck| - 1]]], players)
      == multiset(deck) + HandsOf(hands, players)
  {
    HandsOfAdd(hands, players, p, deck[|deck| - 1]);
    assert deck == deck[..|deck| - 1] + [deck[|deck| - 1]];
  }

  /**
   * Starting a game with distinct players loses and creates no card: the
   * deck before dealing is the deck after the first draw plus every hand.
   */
  lemma StartConservesCards(hands: map<PlayerId, seq<Card>>, deck: seq<Card>, players: seq<PlayerId>, turn: PlayerId)
    requires Distinct(players) && turn in players
    requires |DealHands(hands, deck, players).deck| > 0
    ensures var d := DealHands(hands, deck, players);
      && (forall i :: 0 <= i < |players| ==> players[i] in d.hands)
      && multiset(deck) == multiset(d.deck[..|d.deck| - 1])
        + HandsOf(d.hands[turn := d.hands[turn] + [d.deck[|d.deck| - 1]]], players)
  {
    var d := DealHands(hands, deck, players);
    DealHandsConserves(hands, deck, players);
    DrawMovesCard(d.hands, d.deck, players, turn);
  }

  /** m agrees with m0 on every key other than k, and holds k. */
  ghost predicate SameExcept<V>(m: map<PlayerId, V>, m0: map<PlayerId, V>, k: PlayerId)
  {
    && k in m
    && (forall p :: p != k ==> (p in m <==> p in m0))
    && (forall p :: p != k && p in m ==> m[p] == m0[p])
  }

  /** Agreeing everywhere but at k is being m0 with k updated. */
  lemma SameExceptUpdate<V>(m: map<PlayerId, V>, m0: map<PlayerId, V>, k: PlayerId)
    requires SameExcept(m, m0, k)
    ensures m == m0[k := m[k]]
  {
    var n := m0[k := m[k]];
    assert forall p :: p in m <==> p in n;
    assert forall p :: p in m ==> m[p] == n[p];
  }

  /** What is left of a meld loop still leads to the whole loop's result. */
  ghost predicate MeldLoopInv(hand: seq<Card>, laid: seq<Meld>, rest: seq<Meld>, all: MeldsResult, laid0: seq<Meld>)
  {
    && ApplyMelds(hand, rest).hand == all.hand
    && laid + ApplyMelds(hand, rest).melded == laid0 + all.melded
  }

  lemma MeldStep(hand: seq<Card>, laid: seq<Meld>, toMeld: seq<Meld>, i: nat, all: MeldsResult, laid0: seq<Meld>)
    requires i < |toMeld| && MeldLoopInv(hand, laid, toMeld[i..], all, laid0)
    ensures CanMeld(hand, toMeld[i]) ==>
      MeldLoopInv(Without(hand, toMeld[i]), laid + [toMeld[i]], toMeld[i + 1..], all, laid0)
    ensures !CanMeld(hand, toMeld[i]) ==> MeldLoopInv(hand, laid, toMeld[i + 1..], all, laid0)
  {
    assert toMeld[i..][0] == toMeld[i] && toMeld[i..][1..] == toMeld[i + 1..];
  }

  lemma MeldLoopDone(hand: seq<Card>, laid: seq<Meld>, toMeld: seq<Meld>, all: MeldsResult, laid0: seq<Meld>)
    requires MeldLoopInv(hand, laid, toMeld[|toMeld|..], all, laid0)
    ensures hand == all.hand && laid == laid0 + all.melded
  {
    assert toMeld[|toMeld|..] == [];
  }

  // ---------------------------------------------------------------------
  // The game session object.
  // ---------------------------------------------------------------------

  class Game {
    var state: GameState
    var deck: seq<Card>
    var players: seq<PlayerId>
    var owner: PlayerId
    var round: int
    var dealer: PlayerId
    var playerTurn: PlayerId
    var melds: map<PlayerId, seq<Meld>>
    var playerCards: map<PlayerId, seq<Card>>
    var discardPile: seq<Card>

    /** Every player on the roster has a hand and a meld list, and no one else has. */
    ghost predicate Keyed()
      reads this
    {
      && (forall p :: p in playerCards <==> p in players)
      && (forall p :: p in melds <==> p in players)
    }

    /**
     * The owner heads a roster of one to five entries; a game is waiting or in
     * progress; once in progress, round 0 has a dealer and a turn on the roster.
     */
    ghost predicate Valid()
      reads this
    {
      && Keyed()
      && 1 <= |players| <= MaxNumPlayers + 1
      && players[0] == owner
      && (state == WaitingForPlayers || state == InProgress)
      && (state == InProgress ==> round == 0 && dealer in players && playerTurn in players)
    }

    /** A new game owned by `owner`, waiting for players, with a shuffled double deck. */
    constructor(owner: PlayerId, picks: seq<nat>)
      requires AreShufflePicks(picks, NumCards)
      ensures Valid()
      ensures this.owner == owner && players == [owner]
      ensures state == WaitingForPlayers && round == -1
      ensures dealer == InvalidPlayerId && playerTurn == InvalidPlayerId
      ensures melds == map[owner := []] && playerCards == map[owner := []] && discardPile == []
      ensures |deck| == NumCards
      ensures forall card: Card :: multiset(deck)[card] == if card < NumCards then 1 else 0
    {
      var shuffled := CreateShuffledDeck(NumCards, picks);
      this.owner := owner;
      state := WaitingForPlayers;
      players := [owner];
      deck := shuffled[..];
      round := -1;
      dealer := InvalidPlayerId;
      playerTurn := InvalidPlayerId;
      melds := map[owner := []];
      playerCards := map[owner := []];
      discardPile := [];
    }

    /**
     * Whether addPlayer lets one more player in: the roster may hold at most
     * MaxNumPlayers before the join, so it can grow to MaxNumPlayers + 1.
     */
    predicate AdmitsPlayer()
      reads this
    {
      !(|players| > MaxNumPlayers) && state == WaitingForPlayers
    }

    method AddPlayer(playerId: PlayerId) returns (ok: bool)
      requires Valid()
      modifies this
      ensures Valid()
      ensures ok == old(AdmitsPlayer())
      ensures ok ==> players == old(players) + [playerId]
      ensures ok ==> melds == old(melds)[playerId := []] && playerCards == old(playerCards)[playerId := []]
      ensures ok ==> (state == old(state) && deck == old(deck) && owner == old(owner) && round == old(round)
        && dealer == old(dealer) && playerTurn == old(playerTurn) && discardPile == old(discardPile))
      ensures !ok ==> unchanged(this)
    {
      if |players| > MaxNumPlayers {
        return false;
      }
      if state != WaitingForPlayers {
        return false;
      }
      players := players + [playerId];
      melds := melds[playerId := []];
      playerCards := playerCards[playerId := []];
      return true;
    }

    /** Only a roster of exactly MaxNumPlayers is full and still admits a player. */
    predicate IsFull()
      reads this
      ensures IsFull() && AdmitsPlayer() ==> |players| == MaxNumPlayers
      ensures !IsFull() && state == WaitingForPlayers ==> AdmitsPlayer()
    {
      |players| >= MaxNumPlayers
    }

    /** A waiting game of exactly MaxNumPlayers is full and still admits one more player. */
    lemma FullGameAdmitsOneMore()
      requires state == WaitingForPlayers && |players| == MaxNumPlayers
      ensures IsFull() && AdmitsPlayer()
    {
    }

    /** A well-formed game can be started unless its owner is alone. */
    predicate CanGameBeStarted()
      reads this
      ensures Valid() ==> (CanGameBeStarted() <==> |players| != 1)
    {
      |players| >= MinNumPlayers
    }

    /**
     * startGame with the random dealer index given as `dealerPick`: when at
     * least two players are on the roster, the game goes in progress at
     * round 0, the picked player deals, the hands are dealt and the player
     * after the dealer draws the last card of the deck.
     */
    method StartGame(dealerPick: nat) returns (ok: bool)
      requires Valid() && dealerPick < |players|
      requires CanGameBeStarted() ==> |DealHands(playerCards, deck, players).deck| > 0
      modifies this
      ensures players == old(players) && owner == old(owner) && melds == old(melds) && discardPile == old(discardPile)
      ensures Valid()
      ensures ok == old(CanGameBeStarted())
      ensures !ok ==> unchanged(this)
      ensures ok ==> state == InProgress && round == 0
      ensures ok ==> dealer == players[dealerPick] && playerTurn == players[Succ(dealerPick, |players|)]
      ensures ok ==> var d := DealHands(old(playerCards), old(deck), players);
        && deck == d.deck[..|d.deck| - 1]
        && playerTurn in d.hands
        && playerCards == d.hands[playerTurn := d.hands[playerTurn] + [d.deck[|d.deck| - 1]]]
    {
      if !CanGameBeStarted() {
        return false;
      }
      state := InProgress;
      round := 0;
      dealer := players[dealerPick];
      // The player after the dealer starts: (dealerPick + 1) modulo the
      // roster length, which only wraps the last index back to 0.
      var startingPlayerIndex := Succ(dealerPick, |players|);
      DealPlayerCards();
      playerTurn := players[startingPlayerIndex];
      var drawn := deck[|deck| - 1];
      deck := deck[..|deck| - 1];
      playerCards := playerCards[playerTurn := playerCards[playerTurn] + [drawn]];
      return true;
    }

    /** Deals DealSize cards from the end of the deck to each roster entry in order. */
    method DealPlayerCards()
      requires Keyed()
      modifies this
      ensures Keyed()
      ensures var d := DealHands(old(playerCards), old(deck), players);
        playerCards == d.hands && deck == d.deck
      ensures state == old(state) && players == old(players) && owner == old(owner) && round == old(round)
      ensures dealer == old(dealer) && playerTurn == old(playerTurn)
      ensures melds == old(melds) && discardPile == old(discardPile)
    {
      for i := 0 to |players|
        invariant state == old(state) && players == old(players) && owner == old(owner) && round == old(round)
        invariant DealHands(playerCards, deck, players[i..]) == DealHands(old(playerCards), old(deck), players)
        invariant forall p :: p in playerCards <==> p in players
        invariant dealer == old(dealer) && playerTurn == old(playerTurn)
        invariant melds == old(melds) && discardPile == old(discardPile)
      {
        // Taking the last DealSize cards takes the whole deck when fewer remain.
        var cut := if |deck| >= DealSize then |deck| - DealSize else 0;
        assert players[i..][1..] == players[i + 1..];
        playerCards := playerCards[players[i] := deck[cut..]];
        deck := deck[..cut];
      }
      assert players[|players|..] == [];
    }

    /**
     * canPlayerMeld: every card of the meld is found, truthily, in the
     * player's hand, and the meld is a valid combination. For a player
     * without a hand only the empty meld can be asked about (any other meld
     * makes the source read a hand that does not exist), and it is refused.
     */
    predicate CanPlayerMeld(playerId: PlayerId, meld: Meld)
      reads this
      requires playerId in playerCards || meld == []
      ensures CanPlayerMeld(playerId, meld) <==>
        && (forall c :: c in meld ==> c in playerCards[playerId] && c != 0)
        && IsValidCombination(meld)
    {
      if playerId in playerCards then
        CanMeldMeaning(playerCards[playerId], meld);
        CanMeld(playerCards[playerId], meld)
      else
        IsValidCombination(meld)
    }

    /** canPlayerDiscard: the card is in the player's hand. */
    predicate CanPlayerDiscard(playerId: PlayerId, card: Card)
      reads this
      requires playerId in playerCards
      ensures CanPlayerDiscard(playerId, card) <==> card in playerCards[playerId]
    {
      Find(playerCards[playerId], card).Some?
    }

    /**
     * executePlayerMove: lays down each meld the player can lay down
     * against the hand as it stands, then discards the card if it is still
     * held. The result is PlayOutcome on the player's hand; no other player's
     * hand or melds change.
     */
    method ExecutePlayerMove(playerId: PlayerId, move: PlayerMove)
      requires Valid() && playerId in playerCards
      modifies this
      ensures Valid()
      ensures var r := PlayOutcome(old(playerCards[playerId]), move);
        && playerCards == old(playerCards)[playerId := r.hand]
        && melds == old(melds)[playerId := old(melds[playerId]) + r.melded]
        && discardPile == old(discardPile) + r.discarded
      ensures state == old(state) && deck == old(deck) && players == old(players) && owner == old(owner)
      ensures round == old(round) && dealer == old(dealer) && playerTurn == old(playerTurn)
    {
      LayDownMelds(playerId, move.melds);
      if CanPlayerDiscard(playerId, move.discards) {
        discardPile := discardPile + [move.discards];
        playerCards := playerCards[playerId := RemoveFirst(playerCards[playerId], move.discards)];
      }
    }

    /**
     * The meld loop of executePlayerMove: each meld the player can lay down
     * against the hand as it stands is appended to the player's melds and its
     * cards are filtered out of the hand.
     */
    method LayDownMelds(playerId: PlayerId, toMeld: seq<Meld>)
      requires playerId in playerCards && playerId in melds
      modifies this
      ensures var r := ApplyMelds(old(playerCards[playerId]), toMeld);
        && playerCards == old(playerCards)[playerId := r.hand]
        && melds == old(melds)[playerId := old(melds[playerId]) + r.melded]
      ensures discardPile == old(discardPile)
      ensures state == old(state) && deck == old(deck) && players == old(players) && owner == old(owner)
      ensures round == old(round) && dealer == old(dealer) && playerTurn == old(playerTurn)
    {
      ghost var all := ApplyMelds(old(playerCards[playerId]), toMeld);
      for i := 0 to |toMeld|
        invariant playerId in playerCards && playerId in melds
        invariant MeldLoopInv(playerCards[playerId], melds[playerId], toMeld[i..], all, old(melds[playerId]))
        invariant SameExcept(playerCards, old(playerCards), playerId)
        invariant SameExcept(melds, old(melds), playerId)
        invariant discardPile == old(discardPile)
        invariant state == old(state) && deck == old(deck) && players == old(players) && owner == old(owner)
        invariant round == old(round) && dealer == old(dealer) && playerTurn == old(playerTurn)
      {
        var meld := toMeld[i];
        MeldStep(playerCards[playerId], melds[playerId], toMeld, i, all, old(melds[playerId]));
        if CanPlayerMeld(playerId, meld) {
          melds := melds[playerId := melds[playerId] + [meld]];
          playerCards := playerCards[playerId := Without(playerCards[playerId], meld)];
        }
      }
      MeldLoopDone(playerCards[playerId], melds[playerId], toMeld, all, old(melds[playerId]));
      SameExceptUpdate(playerCards, old(playerCards), playerId);
      SameExceptUpdate(melds, old(melds), playerId);
    }

    /** getNextDraw: the last card of the deck, undefined when the deck is empty. */
    function GetNextDraw(): (r: Option<Card>)
      reads this
      ensures r.None? <==> deck == []
      ensures r.Some? ==> r.value == deck[|deck| - 1]
    {
      if |deck| == 0 then None else Some(deck[|deck| - 1])
    }

    /** getPlayerIndex: the first roster index of the id, or -1. */
    function GetPlayerIndex(playerId: PlayerId): (r: int)
      reads this
      ensures -1 <= r < |players|
      ensures r == -1 <==> playerId !in players
      ensures 0 <= r ==> players[r] == playerId && forall k :: 0 <= k < r ==> players[k] != playerId
    {
      IndexOfFirst(players, playerId);
      IndexOf(players, playerId)
    }

    /** isPlayerInGame: the id is on the roster. */
    predicate IsPlayerInGame(playerId: PlayerId)
      reads this
      ensures IsPlayerInGame(playerId) <==> playerId in players
    {
      Find(players, playerId) != None
    }

    /**
     * getNextTurnPlayer: the roster entry after the player in turn,
     * cyclically (NextInRoster; TurnsCycle shows the order it produces).
     */
    function GetNextTurnPlayer(): (next: PlayerId)
      reads this
      requires |players| > 0
      ensures next in players
      ensures playerTurn !in players ==> next == players[0]
    {
      NextInRoster(players, playerTurn)
    }

    /**
     * advance: the last card of the deck is drawn by the next player in
     * turn order, who becomes the player in turn.
     */
    method Advance()
      requires Valid() && deck != []
      modifies this
      ensures state == old(state) && players == old(players) && owner == old(owner) && round == old(round)
      ensures dealer == old(dealer) && melds == old(melds) && discardPile == old(discardPile)
      ensures Valid()
      ensures playerTurn == NextInRoster(players, old(playerTurn))
      ensures deck == old(deck[..|deck| - 1])
      ensures playerCards == old(playerCards)[playerTurn := old(playerCards)[playerTurn] + [old(GetNextDraw()).value]]
    {
      var nextDraw := deck[|deck| - 1];
      deck := deck[..|deck| - 1];
      playerTurn := GetNextTurnPlayer();
      playerCards := playerCards[playerTurn := playerCards[playerTurn] + [nextDraw]];
    }
  }

  /**
   * addPlayer's size check admits a fifth player: a new game takes four
   * joins, so the roster reaches MaxNumPlayers + 1, and refuses the sixth.
   */
  method FifthPlayerJoins(picks: seq<nat>) returns (g: Game, fifth: bool, sixth: bool)
    requires AreShufflePicks(picks, NumCards)
    ensures fifth && !sixth
    ensures g.players == [0, 1, 2, 3, 4] && g.IsFull()
  {
    g := new Game(0, picks);
    var ok := g.AddPlayer(1);
    ok := g.AddPlayer(2);
    ok := g.AddPlayer(3);
    fifth := g.AddPlayer(4);
    sixth := g.AddPlayer(5);
  }

  /**
   * Starting a new two-player game: 13 cards go to each player, the player
   * after the dealer draws a fourteenth, and 108 - 27 cards stay in the deck.
   */
  method TwoPlayerStart(picks: seq<nat>, dealerPick: nat) returns (g: Game, ok: bool)
    requires AreShufflePicks(picks, NumCards) && dealerPick < 2
    ensures ok && g.players == [0, 1] && g.state == InProgress && g.dealer == g.players[dealerPick]
    ensures |g.deck| == NumCards - 2 * DealSize - 1
    ensures g.playerTurn in g.playerCards && |g.playerCards[g.playerTurn]| == DealSize + 1
    ensures g.dealer in g.playerCards && |g.playerCards[g.dealer]| == DealSize
  {
    g := new Game(0, picks);
    var joined := g.AddPlayer(1);
    FirstDealSizes(g.playerCards, g.deck, g.players);
    ok := g.StartGame(dealerPick);
  }
}
