/**
 * The combination validator: which groups of 3 to 5 cards may be melded.
 * A group is a set (one rank), a run (consecutive card ids once sorted by
 * rank), or, with wildcards, a same-suit run with a single missing rank
 * filled by the one joker or by a Two.
 */
module Combinations {
  import opened Deck

  /** No card of the sequence is a joker. */
  predicate NoJokers(cards: seq<Card>)
  {
    forall i :: 0 <= i < |cards| ==> !IsJoker(cards[i])
  }

  /**
   * The comparator given to the sort: a joker on the left compares greater,
   * a joker on the right compares smaller, otherwise the ranks decide.
   */
  function RankSortFn(ca: Card, cb: Card): (r: int)
    ensures -1 <= r <= 1
    ensures IsJoker(ca) ==> r == 1
    ensures !IsJoker(ca) && IsJoker(cb) ==> r == -1
    ensures !IsJoker(ca) && !IsJoker(cb) ==>
      && (r < 0 <==> GetCardRank(ca) < GetCardRank(cb))
      && (r == 0 <==> GetCardRank(ca) == GetCardRank(cb))
      && (r > 0 <==> GetCardRank(ca) > GetCardRank(cb))
  {
    if IsJoker(ca) then 1
    else if IsJoker(cb) then -1
    else
      var rca := GetCardRank(ca);
      var rcb := GetCardRank(cb);
      if rca < rcb then -1
      else if rca > rcb then 1
      else 0
  }

  /** On suited cards the comparator is antisymmetric and transitive, so it orders them. */
  lemma RankSortFnOrdersSuitedCards(a: Card, b: Card, c: Card)
    requires !IsJoker(a) && !IsJoker(b) && !IsJoker(c)
    ensures RankSortFn(a, b) == -RankSortFn(b, a)
    ensures RankSortFn(a, b) <= 0 && RankSortFn(b, c) <= 0 ==> RankSortFn(a, c) <= 0
  {
  }

  /** Every adjacent pair is in the comparator's order. */
  predicate RankSorted(cards: seq<Card>)
  {
    forall i :: 1 <= i < |cards| ==> RankSortFn(cards[i - 1], cards[i]) <= 0
  }

  /** Inserts x before the first card it does not compare greater than. */
  function InsertByRank(x: Card, sorted: seq<Card>): (r: seq<Card>)
    ensures |r| == |sorted| + 1
    ensures multiset(r) == multiset(sorted) + multiset{x}
    ensures r[0] == x || (|sorted| > 0 && r[0] == sorted[0])
  {
    if sorted == [] || RankSortFn(x, sorted[0]) <= 0 then [x] + sorted
    else
      assert sorted == [sorted[0]] + sorted[1..];
      [sorted[0]] + InsertByRank(x, sorted[1..])
  }

  /** Inserting a suited card into a rank-sorted suited list keeps it rank-sorted. */
  lemma {:induction false} InsertByRankSorted(x: Card, sorted: seq<Card>)
    requires !IsJoker(x) && NoJokers(sorted) && RankSorted(sorted)
    ensures NoJokers(InsertByRank(x, sorted)) && RankSorted(InsertByRank(x, sorted))
  {
    var r := InsertByRank(x, sorted);
    if sorted == [] || RankSortFn(x, sorted[0]) <= 0 {
      assert r == [x] + sorted;
    } else {
      var tail := sorted[1..];
      InsertByRankSorted(x, tail);
      var t := InsertByRank(x, tail);
      assert r == [sorted[0]] + t;
      assert RankSortFn(sorted[0], t[0]) <= 0 by {
        if t[0] == x {
          RankSortFnOrdersSuitedCards(x, sorted[0], x);
        } else {
          assert t[0] == sorted[1];
        }
      }
      forall i | 1 <= i < |r| ensures RankSortFn(r[i - 1], r[i]) <= 0 {
        if i > 1 {
          assert r[i - 1] == t[i - 2] && r[i] == t[i - 1];
        }
      }
    }
  }

  /**
   * The engine's `sort` with RankSortFn, as a stable insertion sort: the
   * result is a permutation of the input, ordered by rank when it holds no
   * joker.
   */
  function SortByRank(cards: seq<Card>): (r: seq<Card>)
    ensures |r| == |cards| && multiset(r) == multiset(cards)
    ensures NoJokers(cards) ==> NoJokers(r) && RankSorted(r)
  {
    if cards == [] then []
    else
      assert cards == [cards[0]] + cards[1..];
      var tail := SortByRank(cards[1..]);
      if NoJokers(cards) then
        InsertByRankSorted(cards[0], tail);
        InsertByRank(cards[0], tail)
      else
        InsertByRank(cards[0], tail)
  }

  /** The sort is stable: a suited list already in rank order comes back unchanged. */
  lemma {:induction false} SortByRankKeepsSorted(cards: seq<Card>)
    requires NoJokers(cards) && RankSorted(cards)
    ensures SortByRank(cards) == cards
  {
    if cards != [] {
      SortByRankKeepsSorted(cards[1..]);
      assert cards == [cards[0]] + cards[1..];
    }
  }

  /** The jokers of the combination, in order. */
  function Jokers(cards: seq<Card>): (r: seq<Card>)
    ensures forall i :: 0 <= i < |r| ==> IsJoker(r[i])
  {
    if cards == [] then []
    else (if IsJoker(cards[0]) then [cards[0]] else []) + Jokers(cards[1..])
  }

  /** The combination without its jokers, in order. */
  function NonJokers(cards: seq<Card>): (r: seq<Card>)
    ensures NoJokers(r)
    ensures |r| + |Jokers(cards)| == |cards|
  {
    if cards == [] then []
    else (if IsJoker(cards[0]) then [] else [cards[0]]) + NonJokers(cards[1..])
  }

  /** The filters split the combination: a card is kept by exactly the filter matching it. */
  lemma {:induction false} JokerFilterMembers(cards: seq<Card>)
    ensures forall c :: c in Jokers(cards) <==> c in cards && IsJoker(c)
    ensures forall c :: c in NonJokers(cards) <==> c in cards && !IsJoker(c)
  {
    if cards != [] {
      JokerFilterMembers(cards[1..]);
      assert cards == [cards[0]] + cards[1..];
    }
  }

  /** Filtering the jokers out of a joker-free list leaves it unchanged. */
  lemma {:induction false} NonJokersOfSuited(cards: seq<Card>)
    requires NoJokers(cards)
    ensures NonJokers(cards) == cards
    ensures |Jokers(cards)| == 0
  {
    if cards != [] {
      NonJokersOfSuited(cards[1..]);
      assert cards == [cards[0]] + cards[1..];
    }
  }

  /** All cards share the first card's rank; true for no cards. */
  predicate IsValidSet(cards: seq<Card>)
    requires NoJokers(cards)
    ensures IsValidSet(cards) <==>
      forall i, j :: 0 <= i < |cards| && 0 <= j < |cards| ==> GetCardRank(cards[i]) == GetCardRank(cards[j])
  {
    forall i :: 0 <= i < |cards| ==> GetCardRank(cards[i]) == GetCardRank(cards[0])
  }

  /** Every adjacent pair of raw card numbers differs by exactly one. */
  predicate IsValidRun(cards: seq<Card>)
  {
    forall i :: 1 <= i < |cards| ==> cards[i] == cards[i - 1] + 1
  }

  /** A raw run is an interval of consecutive card ids starting at the first card. */
  lemma {:induction false} IsValidRunIsInterval(cards: seq<Card>)
    ensures IsValidRun(cards) <==> forall i :: 0 <= i < |cards| ==> cards[i] == cards[0] + i
  {
    if |cards| > 1 {
      IsValidRunIsInterval(cards[..|cards| - 1]);
      var init := cards[..|cards| - 1];
      assert forall i :: 0 <= i < |init| ==> init[i] == cards[i];
      assert IsValidRun(cards) <==> IsValidRun(init) && cards[|cards| - 1] == cards[|cards| - 2] + 1;
    }
  }

  /** All cards share the first card's suit. The source throws on an empty list. */
  predicate AreCardsSameSuit(cards: seq<Card>)
    requires |cards| > 0
    ensures AreCardsSameSuit(cards) <==>
      forall i, j :: 0 <= i < |cards| && 0 <= j < |cards| ==> GetCardSuit(cards[i]) == GetCardSuit(cards[j])
  {
    forall i :: 0 <= i < |cards| ==> GetCardSuit(cards[i]) == GetCardSuit(cards[0])
  }

  /** The rank difference between position i and its predecessor. */
  function Step(cards: seq<Card>, i: nat): int
    requires NoJokers(cards) && 1 <= i < |cards|
  {
    GetCardRank(cards[i]) - GetCardRank(cards[i - 1])
  }

  /**
   * Ranks strictly increase, each step is 1 or 2, and at most one step is 2:
   * a run in which a single missing rank can be filled by one wildcard.
   */
  predicate GapValid(cards: seq<Card>)
    requires NoJokers(cards)
  {
    && (forall i :: 1 <= i < |cards| ==> 1 <= Step(cards, i) <= 2)
    && (forall i, j :: 1 <= i < |cards| && 1 <= j < |cards| && Step(cards, i) == 2 && Step(cards, j) == 2 ==> i == j)
  }

  /** In a one-gap run the ranks strictly increase. */
  lemma {:induction false} GapValidIncreasing(cards: seq<Card>)
    requires NoJokers(cards) && GapValid(cards)
    ensures forall i, j :: 0 <= i < j < |cards| ==> GetCardRank(cards[i]) < GetCardRank(cards[j])
  {
    if |cards| > 1 {
      var init := cards[..|cards| - 1];
      assert forall i :: 0 <= i < |init| ==> init[i] == cards[i];
      assert forall i :: 1 <= i < |init| ==> Step(init, i) == Step(cards, i);
      GapValidIncreasing(init);
      assert Step(cards, |cards| - 1) >= 1;
    }
  }

  /** A one-gap run spans at most one rank more than its length accounts for. */
  lemma {:induction false} GapValidSpan(cards: seq<Card>)
    requires NoJokers(cards) && GapValid(cards) && |cards| > 0
    ensures forall i, j :: 0 <= i < j < |cards| ==> GetCardRank(cards[i]) < GetCardRank(cards[j])
    ensures |cards| - 1 <= GetCardRank(cards[|cards| - 1]) - GetCardRank(cards[0]) <= |cards|
  {
    GapValidIncreasing(cards);
    if |cards| > 1 {
      var init := cards[..|cards| - 1];
      assert forall i :: 0 <= i < |init| ==> init[i] == cards[i];
      assert forall i :: 1 <= i < |init| ==> Step(init, i) == Step(cards, i);
      GapValidSpan(init);
      var last := |cards| - 1;
      if Step(cards, last) == 2 {
        assert forall i :: 1 <= i < last ==> Step(cards, i) == 1;
        GapValidUnitSpan(init);
      }
    }
  }

  /** With every step 1, the ranks of a sequence span exactly its length minus one. */
  lemma {:induction false} GapValidUnitSpan(cards: seq<Card>)
    requires NoJokers(cards) && |cards| > 0
    requires forall i :: 1 <= i < |cards| ==> Step(cards, i) == 1
    ensures GetCardRank(cards[|cards| - 1]) - GetCardRank(cards[0]) == |cards| - 1
  {
    if |cards| > 1 {
      var init := cards[..|cards| - 1];
      assert forall i :: 0 <= i < |init| ==> init[i] == cards[i];
      assert forall i :: 1 <= i < |init| ==> Step(init, i) == Step(cards, i);
      GapValidUnitSpan(init);
      assert Step(cards, |cards| - 1) == 1;
    }
  }

  /** Result of the gap search: whether the run is valid, and where its gap is. */
  datatype RunGap = RunGap(valid: bool, pos: nat)

  /**
   * Scans a rank-sorted, same-suit, joker-free list for at most one missing
   * rank. `pos` is the index of the first step that is not 1 when that step
   * is 2, and 0 otherwise.
   */
  method FindGap(rankSortedCards: seq<Card>) returns (rg: RunGap)
    requires NoJokers(rankSortedCards)
    ensures rg.valid <==> GapValid(rankSortedCards)
    ensures rg.pos == 0 || (1 <= rg.pos < |rankSortedCards| && Step(rankSortedCards, rg.pos) == 2)
    ensures forall k :: 1 <= k < rg.pos ==> Step(rankSortedCards, k) == 1
    ensures rg.pos == 0 ==>
      forall k :: 1 <= k < |rankSortedCards| && Step(rankSortedCards, k) == 2 ==>
        exists l :: 1 <= l < k && Step(rankSortedCards, l) != 1
  {
    var cards := rankSortedCards;
    rg := RunGap(true, 0);
    var gapFound := false;
    var i := 1;
    while i < |cards|
      invariant 1 <= i
      invariant |cards| > 0 ==> i <= |cards|
      invariant rg.valid
      invariant forall k :: 1 <= k < i && k < |cards| ==> 1 <= Step(cards, k) <= 2
      invariant !gapFound ==> rg.pos == 0 && forall k :: 1 <= k < i && k < |cards| ==> Step(cards, k) == 1
      invariant gapFound ==> 1 <= rg.pos < i && rg.pos < |cards| && Step(cards, rg.pos) == 2
      invariant gapFound ==> forall k :: 1 <= k < i && k < |cards| && k != rg.pos ==> Step(cards, k) == 1
    {
      var current: int := GetCardRank(cards[i]);
      var previous: int := GetCardRank(cards[i - 1]);
      var gap := current - previous;
      assert gap == Step(cards, i);

      if gap <= 0 || gap > 2 {
        rg := rg.(valid := false);
        break;
      }
      if gap == 2 {
        if gapFound {
          rg := rg.(valid := false);
          break;
        }
        gapFound := true;
        rg := rg.(pos := i);
      }
      i := i + 1;
    }
  }

  /** The list without its element at index i. */
  function RemoveAt(cards: seq<Card>, i: nat): (r: seq<Card>)
    requires i < |cards|
    ensures |r| == |cards| - 1
    ensures forall k :: 0 <= k < |r| ==> r[k] == if k < i then cards[k] else cards[k + 1]
    ensures multiset(r) == multiset(cards) - multiset{cards[i]}
  {
    assert cards == cards[..i] + [cards[i]] + cards[i + 1..];
    cards[..i] + cards[i + 1..]
  }

  /**
   * The Two at index i of a joker-free sorted list can stand in as a
   * wildcard: without it, the rest is one rank, or one suit with at most one
   * missing rank.
   */
  predicate TwoActsAsWildcard(rest: seq<Card>, i: nat)
    requires NoJokers(rest) && 2 <= |rest| && i < |rest|
  {
    && GetCardRank(rest[i]) == Two
    && var cp := RemoveAt(rest, i);
       assert NoJokers(cp);
       IsValidSet(cp) || (AreCardsSameSuit(cp) && GapValid(cp))
  }

  /** Some Two of the joker-free sorted list can stand in as a wildcard. */
  predicate SomeTwoActsAsWildcard(rest: seq<Card>)
    requires NoJokers(rest) && 2 <= |rest|
  {
    exists i :: 0 <= i < |rest| && TwoActsAsWildcard(rest, i)
  }

  /**
   * Whether the cards form a valid combination. Pure combinations admit no
   * wildcard; otherwise one joker, or a Two when there is no joker, may fill
   * a single missing rank of a same-suit run.
   */
  function IsValidCombination(cards: seq<Card>, pure: bool := false): (valid: bool)
    ensures valid ==> 3 <= |cards| <= 5
    ensures valid ==> |Jokers(cards)| <= 1
    ensures valid && pure ==> |Jokers(cards)| == 0
  {
    if |cards| < 3 || |cards| > 5 then false
    else
      var jokers := Jokers(cards);
      if |jokers| > 1 then false
      else
        var rest := SortByRank(NonJokers(cards));
        if pure && |jokers| > 0 then false
        else if IsValidSet(rest) then true
        else if IsValidRun(rest) then true
        else if pure then false
        else if |jokers| > 0 then AreCardsSameSuit(rest) && GapValid(rest)
        else SomeTwoActsAsWildcard(rest)
  }

  // ---------------------------------------------------------------------
  // What the validator accepts, stated over the cards as the player gives them.
  // ---------------------------------------------------------------------

  /** The suited cards of the group all have one rank. */
  predicate SameRankGroup(cards: seq<Card>)
  {
    forall i, j :: 0 <= i < |cards| && 0 <= j < |cards| && !IsJoker(cards[i]) && !IsJoker(cards[j]) ==>
      GetCardRank(cards[i]) == GetCardRank(cards[j])
  }

  /** The suited cards of the group all have one suit. */
  predicate SameSuitGroup(cards: seq<Card>)
  {
    forall i, j :: 0 <= i < |cards| && 0 <= j < |cards| && !IsJoker(cards[i]) && !IsJoker(cards[j]) ==>
      GetCardSuit(cards[i]) == GetCardSuit(cards[j])
  }

  /** Every step of the rank sequence is exactly one. */
  predicate ConsecutiveRanks(cards: seq<Card>)
    requires NoJokers(cards)
  {
    forall i :: 1 <= i < |cards| ==> Step(cards, i) == 1
  }

  /** The list the validator inspects holds exactly the suited cards of the group, sorted. */
  lemma SortedSuitedMembers(cards: seq<Card>)
    ensures var rest := SortByRank(NonJokers(cards));
      && NoJokers(rest) && RankSorted(rest)
      && |rest| == |cards| - |Jokers(cards)|
      && (forall c :: c in rest <==> c in cards && !IsJoker(c))
  {
    JokerFilterMembers(cards);
    var rest := SortByRank(NonJokers(cards));
    assert forall c :: c in rest <==> c in multiset(NonJokers(cards));
  }

  /** The set test on the sorted suited cards is the group-wide one-rank test. */
  lemma SortedSuitedSet(cards: seq<Card>)
    ensures IsValidSet(SortByRank(NonJokers(cards))) <==> SameRankGroup(cards)
  {
    SortedSuitedMembers(cards);
    var rest := SortByRank(NonJokers(cards));
    if IsValidSet(rest) {
      forall i, j | 0 <= i < |cards| && 0 <= j < |cards| && !IsJoker(cards[i]) && !IsJoker(cards[j])
        ensures GetCardRank(cards[i]) == GetCardRank(cards[j])
      {
        assert cards[i] in rest && cards[j] in rest;
      }
    }
    if SameRankGroup(cards) {
      forall k | 0 <= k < |rest| ensures GetCardRank(rest[k]) == GetCardRank(rest[0]) {
        assert rest[k] in cards && rest[0] in cards;
      }
    }
  }

  /** The same-suit test on the sorted suited cards is the group-wide one-suit test. */
  lemma SortedSuitedSuit(cards: seq<Card>)
    requires |SortByRank(NonJokers(cards))| > 0
    ensures AreCardsSameSuit(SortByRank(NonJokers(cards))) <==> SameSuitGroup(cards)
  {
    SortedSuitedMembers(cards);
    var rest := SortByRank(NonJokers(cards));
    if AreCardsSameSuit(rest) {
      forall i, j | 0 <= i < |cards| && 0 <= j < |cards| && !IsJoker(cards[i]) && !IsJoker(cards[j])
        ensures GetCardSuit(cards[i]) == GetCardSuit(cards[j])
      {
        assert cards[i] in rest && cards[j] in rest;
      }
    }
    if SameSuitGroup(cards) {
      forall k | 0 <= k < |rest| ensures GetCardSuit(rest[k]) == GetCardSuit(rest[0]) {
        assert rest[k] in cards && rest[0] in cards;
      }
    }
  }

  /**
   * Two consecutive suited card ids whose ranks do not decrease are the same
   * suit, one rank apart (a King followed by the next suit's Ace is not).
   */
  lemma AdjacentIdsSameSuit(c: Card)
    requires !IsJoker(c) && !IsJoker(c + 1)
    requires GetCardRank(c) <= GetCardRank(c + 1)
    ensures GetCardSuit(c + 1) == GetCardSuit(c)
    ensures GetCardRank(c + 1) == GetCardRank(c) + 1
  {
    var n := GetCardNumberInDeck(c);
    assert c + 1 == CopySize * (c / CopySize) + (n + 1);
    assert GetCardNumberInDeck(c + 1) == n + 1;
  }

  /**
   * Sorted suited cards whose raw ids are consecutive are one suit with
   * consecutive ranks.
   */
  lemma {:induction false} RawRunIsSuitedRun(cards: seq<Card>)
    requires NoJokers(cards) && RankSorted(cards) && IsValidRun(cards) && |cards| > 0
    ensures AreCardsSameSuit(cards)
    ensures ConsecutiveRanks(cards)
  {
    if |cards| > 1 {
      var last := |cards| - 1;
      var init := cards[..last];
      assert forall i :: 0 <= i < |init| ==> init[i] == cards[i];
      RawRunIsSuitedRun(init);
      assert cards[last] == cards[last - 1] + 1;
      assert RankSortFn(cards[last - 1], cards[last]) <= 0;
      AdjacentIdsSameSuit(cards[last - 1]);
      assert forall i :: 1 <= i < |init| ==> Step(init, i) == Step(cards, i);
    }
  }

  /** A sorted raw run passes the one-gap test, with no gap at all. */
  lemma RawRunIsOneGapRun(cards: seq<Card>)
    requires NoJokers(cards) && RankSorted(cards) && IsValidRun(cards) && |cards| > 0
    ensures AreCardsSameSuit(cards) && GapValid(cards)
  {
    RawRunIsSuitedRun(cards);
  }

  /** Suited cards of one copy and one suit, with consecutive ranks, have consecutive ids. */
  lemma {:induction false} SameCopySuitedRunIsRawRun(cards: seq<Card>)
    requires NoJokers(cards) && |cards| > 0
    requires forall i :: 0 <= i < |cards| ==> cards[i] / CopySize == cards[0] / CopySize
    requires AreCardsSameSuit(cards) && ConsecutiveRanks(cards)
    ensures IsValidRun(cards)
  {
    if |cards| > 1 {
      var last := |cards| - 1;
      var init := cards[..last];
      assert forall i :: 0 <= i < |init| ==> init[i] == cards[i];
      assert forall i :: 1 <= i < |init| ==> Step(init, i) == Step(cards, i);
      SameCopySuitedRunIsRawRun(init);
      CardOfDecode(cards[last]);
      CardOfDecode(cards[last - 1]);
      assert Step(cards, last) == 1;
    }
  }

  /** A pure combination is a wildcard-free set or a wildcard-free same-suit run. */
  lemma PureCombinationShape(cards: seq<Card>)
    requires IsValidCombination(cards, true)
    ensures |Jokers(cards)| == 0
    ensures SameRankGroup(cards) || (SameSuitGroup(cards) && ConsecutiveRanks(SortByRank(NonJokers(cards))))
  {
    SortedSuitedMembers(cards);
    SortedSuitedSet(cards);
    var rest := SortByRank(NonJokers(cards));
    if !IsValidSet(rest) {
      RawRunIsSuitedRun(rest);
      SortedSuitedSuit(cards);
    }
  }

  /** Three to five cards of one rank, with at most one joker, are always accepted. */
  lemma SameRankAccepted(cards: seq<Card>, pure: bool)
    requires 3 <= |cards| <= 5 && SameRankGroup(cards)
    requires |Jokers(cards)| <= (if pure then 0 else 1)
    ensures IsValidCombination(cards, pure)
  {
    SortedSuitedSet(cards);
  }

  /**
   * With one joker, the group is accepted exactly when its suited cards share
   * a rank, or share a suit and leave at most one missing rank; a pure
   * combination never holds a joker.
   */
  lemma OneJokerCombination(cards: seq<Card>)
    requires 3 <= |cards| <= 5 && |Jokers(cards)| == 1
    ensures !IsValidCombination(cards, true)
    ensures IsValidCombination(cards, false) <==>
      SameRankGroup(cards) || (SameSuitGroup(cards) && GapValid(SortByRank(NonJokers(cards))))
  {
    SortedSuitedMembers(cards);
    var rest := SortByRank(NonJokers(cards));
    OneJokerBranches(cards);
    SortedSuitedSet(cards);
    SortedSuitedSuit(cards);
    if IsValidRun(rest) {
      RawRunIsOneGapRun(rest);
    }
  }

  /** With one joker, normal mode accepts a set, a raw run or a same-suit one-gap run of the rest. */
  lemma OneJokerBranches(cards: seq<Card>)
    requires 3 <= |cards| <= 5 && |Jokers(cards)| == 1
    ensures var rest := SortByRank(NonJokers(cards));
      && NoJokers(rest) && |rest| > 0
      && (IsValidCombination(cards, false) <==>
            IsValidSet(rest) || IsValidRun(rest) || (AreCardsSameSuit(rest) && GapValid(rest)))
  {
  }

  /** Asking for purity only removes combinations. */
  lemma PureIsStricter(cards: seq<Card>)
    ensures IsValidCombination(cards, true) ==> IsValidCombination(cards, false)
  {
  }

  /** Without a joker or a Two there is no wildcard, and purity makes no difference. */
  lemma NoWildcardPureIsSame(cards: seq<Card>)
    requires forall i :: 0 <= i < |cards| ==> !IsJoker(cards[i]) && GetCardRank(cards[i]) != Two
    ensures IsValidCombination(cards, false) == IsValidCombination(cards, true)
  {
    if 3 <= |cards| <= 5 {
      JokerFilterMembers(cards);
      assert |Jokers(cards)| == 0 by {
        if |Jokers(cards)| > 0 {
          assert Jokers(cards)[0] in Jokers(cards);
        }
      }
      SortedSuitedMembers(cards);
      var rest := SortByRank(NonJokers(cards));
      forall i | 0 <= i < |rest| ensures GetCardRank(rest[i]) != Two {
        assert rest[i] in cards;
      }
    }
  }

  /**
   * Suited cards of one rank, or of one suit in strictly increasing rank
   * with at most one rank missing between the first and the last.
   */
  predicate SetOrOneGapRun(cards: seq<Card>)
    requires NoJokers(cards) && |cards| > 0
  {
    || SameRankGroup(cards)
    || (&& SameSuitGroup(cards)
        && (forall i, j :: 0 <= i < j < |cards| ==> GetCardRank(cards[i]) < GetCardRank(cards[j]))
        && GetCardRank(cards[|cards| - 1]) - GetCardRank(cards[0]) <= |cards|)
  }

  /**
   * Some Two of the suited list can be set aside so that the other cards are
   * a set or a same-suit run with at most one missing rank.
   */
  predicate TwoSetAsideLeavesSetOrRun(rest: seq<Card>)
    requires NoJokers(rest)
  {
    exists i :: 0 <= i < |rest| && GetCardRank(rest[i]) == Two && |rest| > 1 && SetOrOneGapRun(RemoveAt(rest, i))
  }

  /** What the Two-wildcard test accepts, described without the gap scan. */
  lemma TwoWildcardRemainder(rest: seq<Card>, i: nat)
    requires NoJokers(rest) && 2 <= |rest| && i < |rest| && TwoActsAsWildcard(rest, i)
    ensures GetCardRank(rest[i]) == Two && SetOrOneGapRun(RemoveAt(rest, i))
    ensures TwoSetAsideLeavesSetOrRun(rest)
  {
    var others := RemoveAt(rest, i);
    if !IsValidSet(others) {
      GapValidSpan(others);
    }
    assert SetOrOneGapRun(others);
  }

  /**
   * An impure combination without a joker that is not accepted as pure owes
   * its acceptance to a Two: it holds a Two, and setting one of its Twos
   * aside leaves a set or a same-suit run with at most one missing rank.
   */
  lemma TwoWildcardShape(cards: seq<Card>)
    requires |Jokers(cards)| == 0
    requires IsValidCombination(cards, false) && !IsValidCombination(cards, true)
    ensures exists j :: 0 <= j < |cards| && !IsJoker(cards[j]) && GetCardRank(cards[j]) == Two
    ensures TwoSetAsideLeavesSetOrRun(SortByRank(NonJokers(cards)))
  {
    var rest := SortByRank(NonJokers(cards));
    assert SomeTwoActsAsWildcard(rest);
    var i :| 0 <= i < |rest| && TwoActsAsWildcard(rest, i);
    TwoWildcardRemainder(rest, i);
    var j := SortedSuitedCardIsInCards(cards, i);
  }

  /** Where a card of the sorted suited list sits in the combination. */
  lemma SortedSuitedCardIsInCards(cards: seq<Card>, i: nat) returns (j: nat)
    requires i < |SortByRank(NonJokers(cards))|
    ensures j < |cards| && cards[j] == SortByRank(NonJokers(cards))[i] && !IsJoker(cards[j])
  {
    SortedSuitedMembers(cards);
    var rest := SortByRank(NonJokers(cards));
    assert rest[i] in cards;
    j :| 0 <= j < |cards| && cards[j] == rest[i];
  }

  // ---------------------------------------------------------------------
  // Worked examples.
  // ---------------------------------------------------------------------

  /** A suited group already in rank order is checked as it stands. */
  lemma SortedSuitedCombination(cards: seq<Card>, pure: bool)
    requires 3 <= |cards| <= 5 && NoJokers(cards) && RankSorted(cards)
    ensures IsValidCombination(cards, pure) <==>
      IsValidSet(cards) || IsValidRun(cards) || (!pure && SomeTwoActsAsWildcard(cards))
  {
    NonJokersOfSuited(cards);
    SortByRankKeepsSorted(cards);
  }

  /** Three consecutive ranks of one suit from one copy form a pure run. */
  lemma SameCopyRunAccepted(copy: nat, suit: CardSuit, rank: CardRank)
    requires suit != Joker && rank <= 11
    ensures IsValidCombination([CardOf(copy, suit, rank), CardOf(copy, suit, rank + 1), CardOf(copy, suit, rank + 2)], true)
  {
    DecodeCardOf(copy, suit, rank);
    DecodeCardOf(copy, suit, rank + 1);
    DecodeCardOf(copy, suit, rank + 2);
    var run := [CardOf(copy, suit, rank), CardOf(copy, suit, rank + 1), CardOf(copy, suit, rank + 2)];
    assert IsValidRun(run);
    SortedSuitedCombination(run, true);
  }

  /**
   * With the highest card of such a run taken from another copy the raw ids
   * are not consecutive, and the group is refused even impurely when it
   * holds no Two.
   */
  lemma CrossCopyRunRefused(copy: nat, other: nat, suit: CardSuit, rank: CardRank)
    requires suit != Joker && copy != other && Three <= rank <= 11
    ensures !IsValidCombination([CardOf(copy, suit, rank), CardOf(copy, suit, rank + 1), CardOf(other, suit, rank + 2)], false)
  {
    DecodeCardOf(copy, suit, rank);
    DecodeCardOf(copy, suit, rank + 1);
    DecodeCardOf(other, suit, rank + 2);
    var mixed := [CardOf(copy, suit, rank), CardOf(copy, suit, rank + 1), CardOf(other, suit, rank + 2)];
    assert !IsValidRun(mixed) by {
      assert mixed[2] != mixed[1] + 1;
    }
    assert !IsValidSet(mixed) by {
      assert GetCardRank(mixed[1]) != GetCardRank(mixed[0]);
    }
    forall i | 0 <= i < 3 ensures !TwoActsAsWildcard(mixed, i) {
      assert GetCardRank(mixed[i]) != Two;
    }
    SortedSuitedCombination(mixed, false);
  }

  /**
   * A cross-copy run that holds a Two is not refused: the Two is set aside as
   * a wildcard and the two other cards, of one suit, pass the gap search.
   * Ace-Two-Three and Two-Three-Four with the top card from the other copy
   * are accepted, though not in pure mode.
   */
  lemma CrossCopyRunWithTwoAccepted(copy: nat, other: nat, suit: CardSuit, rank: CardRank)
    requires suit != Joker && copy != other && rank <= Two
    ensures IsValidCombination([CardOf(copy, suit, rank), CardOf(copy, suit, rank + 1), CardOf(other, suit, rank + 2)], false)
    ensures !IsValidCombination([CardOf(copy, suit, rank), CardOf(copy, suit, rank + 1), CardOf(other, suit, rank + 2)], true)
  {
    DecodeCardOf(copy, suit, rank);
    DecodeCardOf(copy, suit, rank + 1);
    DecodeCardOf(other, suit, rank + 2);
    var a, b, c := CardOf(copy, suit, rank), CardOf(copy, suit, rank + 1), CardOf(other, suit, rank + 2);
    assert c != b + 1;
    LowRunWithTwo(a, b, c);
  }

  /**
   * Three same-suit cards of consecutive ranks from Ace or Two up, whose top
   * two ids are not consecutive, are accepted only in normal mode: the Two
   * is set aside and the other two pass the gap search.
   */
  lemma LowRunWithTwo(a: Card, b: Card, c: Card)
    requires !IsJoker(a) && !IsJoker(b) && !IsJoker(c)
    requires GetCardSuit(a) == GetCardSuit(b) == GetCardSuit(c)
    requires GetCardRank(a) <= Two && GetCardRank(b) == GetCardRank(a) + 1 && GetCardRank(c) == GetCardRank(a) + 2
    requires c != b + 1
    ensures IsValidCombination([a, b, c], false) && !IsValidCombination([a, b, c], true)
  {
    LowRunShape(a, b, c);
    LowRunTwoSetAside(a, b, c);
    SortedSuitedCombination([a, b, c], false);
    SortedSuitedCombination([a, b, c], true);
  }

  /** Such three cards are sorted, and neither a set nor a raw run. */
  lemma LowRunShape(a: Card, b: Card, c: Card)
    requires !IsJoker(a) && !IsJoker(b) && !IsJoker(c)
    requires GetCardRank(b) == GetCardRank(a) + 1 && GetCardRank(c) == GetCardRank(a) + 2
    requires c != b + 1
    ensures NoJokers([a, b, c]) && RankSorted([a, b, c])
    ensures !IsValidSet([a, b, c]) && !IsValidRun([a, b, c])
  {
    var cards := [a, b, c];
    assert !IsValidRun(cards) by {
      assert cards[2] != cards[1] + 1;
    }
    assert !IsValidSet(cards) by {
      assert GetCardRank(cards[1]) != GetCardRank(cards[0]);
    }
  }

  /** In such three cards from Ace or Two up, the Two can be set aside. */
  lemma LowRunTwoSetAside(a: Card, b: Card, c: Card)
    requires !IsJoker(a) && !IsJoker(b) && !IsJoker(c)
    requires GetCardSuit(a) == GetCardSuit(b) == GetCardSuit(c)
    requires GetCardRank(a) <= Two && GetCardRank(b) == GetCardRank(a) + 1 && GetCardRank(c) == GetCardRank(a) + 2
    ensures NoJokers([a, b, c]) && SomeTwoActsAsWildcard([a, b, c])
  {
    if GetCardRank(a) == Two {
      TwoInFrontOfPair(a, b, c);
      assert TwoActsAsWildcard([a, b, c], 0);
    } else {
      TwoInsidePair(a, b, c);
      assert TwoActsAsWildcard([a, b, c], 1);
    }
  }

  /** A Two in front of two same-suit cards one or two ranks apart can be set aside. */
  lemma TwoInFrontOfPair(two: Card, low: Card, high: Card)
    requires !IsJoker(two) && !IsJoker(low) && !IsJoker(high)
    requires GetCardRank(two) == Two && GetCardSuit(low) == GetCardSuit(high)
    requires 1 <= GetCardRank(high) - GetCardRank(low) <= 2
    ensures NoJokers([two, low, high]) && TwoActsAsWildcard([two, low, high], 0)
  {
    SuitedPair(low, high);
    assert RemoveAt([two, low, high], 0) == [low, high];
  }

  /** A Two between two same-suit cards one or two ranks apart can be set aside. */
  lemma TwoInsidePair(low: Card, two: Card, high: Card)
    requires !IsJoker(two) && !IsJoker(low) && !IsJoker(high)
    requires GetCardRank(two) == Two && GetCardSuit(low) == GetCardSuit(high)
    requires 1 <= GetCardRank(high) - GetCardRank(low) <= 2
    ensures NoJokers([low, two, high]) && TwoActsAsWildcard([low, two, high], 1)
  {
    SuitedPair(low, high);
    assert RemoveAt([low, two, high], 1) == [low, high];
  }

  /**
   * A Two fills the missing middle rank of two same-suit cards, but only
   * when the combination need not be pure.
   */
  lemma TwoFillsGap(two: Card, low: Card, high: Card)
    requires !IsJoker(two) && !IsJoker(low) && !IsJoker(high)
    requires GetCardRank(two) == Two && Three <= GetCardRank(low) && GetCardRank(high) == GetCardRank(low) + 2
    requires GetCardSuit(low) == GetCardSuit(high)
    ensures IsValidCombination([two, low, high], false)
    ensures !IsValidCombination([two, low, high], true)
  {
    TwoBesideOneGapShape(two, low, high);
    TwoBesideOneGapRun(two, low, high);
    SortedSuitedCombination([two, low, high], false);
    SortedSuitedCombination([two, low, high], true);
  }

  /** The Two in front of two same-suit cards two ranks apart (one missing rank) acts as a wildcard. */
  lemma TwoBesideOneGapRun(two: Card, low: Card, high: Card)
    requires !IsJoker(two) && !IsJoker(low) && !IsJoker(high)
    requires GetCardRank(two) == Two && GetCardRank(high) == GetCardRank(low) + 2
    requires GetCardSuit(low) == GetCardSuit(high)
    ensures TwoActsAsWildcard([two, low, high], 0)
  {
    OneGapPair(low, high);
    assert RemoveAt([two, low, high], 0) == [low, high];
  }

  /** A Two in front of two same-suit cards two ranks apart is neither a set nor a raw run. */
  lemma TwoBesideOneGapShape(two: Card, low: Card, high: Card)
    requires !IsJoker(two) && !IsJoker(low) && !IsJoker(high)
    requires GetCardRank(two) == Two && Three <= GetCardRank(low) && GetCardRank(high) == GetCardRank(low) + 2
    requires GetCardSuit(low) == GetCardSuit(high)
    ensures NoJokers([two, low, high]) && RankSorted([two, low, high])
    ensures !IsValidSet([two, low, high]) && !IsValidRun([two, low, high])
  {
    var cards := [two, low, high];
    OneGapPair(low, high);
    assert !IsValidSet(cards) by {
      assert GetCardRank(cards[1]) != GetCardRank(cards[0]);
    }
    assert !IsValidRun(cards) by {
      assert cards[2] != cards[1] + 1;
    }
  }

  /** Two same-suit cards two ranks apart are a run with one missing rank. */
  lemma OneGapPair(low: Card, high: Card)
    requires !IsJoker(low) && !IsJoker(high)
    requires GetCardRank(high) == GetCardRank(low) + 2 && GetCardSuit(low) == GetCardSuit(high)
    ensures AreCardsSameSuit([low, high]) && GapValid([low, high])
    ensures SameSuitGroup([low, high]) && !IsValidRun([low, high])
  {
    assert Step([low, high], 1) == 2;
    if high == low + 1 {
      AdjacentIdsSameSuit(low);
    }
  }

  /** Two same-suit cards one or two ranks apart pass the gap search. */
  lemma SuitedPair(low: Card, high: Card)
    requires !IsJoker(low) && !IsJoker(high)
    requires 1 <= GetCardRank(high) - GetCardRank(low) <= 2 && GetCardSuit(low) == GetCardSuit(high)
    ensures AreCardsSameSuit([low, high]) && GapValid([low, high])
  {
    assert Step([low, high], 1) == GetCardRank(high) - GetCardRank(low);
  }

  /** The joker filters split two suited cards and a trailing joker. */
  lemma FiltersOfPairAndJoker(low: Card, high: Card, joker: Card)
    requires !IsJoker(low) && !IsJoker(high) && IsJoker(joker)
    ensures Jokers([low, high, joker]) == [joker]
    ensures NonJokers([low, high, joker]) == [low, high]
  {
    assert [joker][1..] == [] && [high, joker][1..] == [joker] && [low, high, joker][1..] == [high, joker];
    assert Jokers([joker]) == [joker] && NonJokers([joker]) == [];
    assert Jokers([high, joker]) == [joker] && NonJokers([high, joker]) == [high];
  }

  /**
   * A joker fills the missing middle rank of two same-suit cards, but only
   * when the combination need not be pure.
   */
  lemma JokerFillsGap(low: Card, high: Card, joker: Card)
    requires !IsJoker(low) && !IsJoker(high) && IsJoker(joker)
    requires GetCardRank(high) == GetCardRank(low) + 2 && GetCardSuit(low) == GetCardSuit(high)
    ensures IsValidCombination([low, high, joker], false)
    ensures !IsValidCombination([low, high, joker], true)
  {
    FiltersOfPairAndJoker(low, high, joker);
    OneGapPair(low, high);
    SortByRankKeepsSorted([low, high]);
    OneJokerCombination([low, high, joker]);
  }

  /**
   * The raw-number run test does not make every cross-copy run illegal: two
   * consecutive same-suit cards from different copies fail it, yet with a
   * joker they pass the one-gap search and are accepted unless pure.
   */
  lemma CrossCopyPairWithJoker(copy: nat, other: nat, suit: CardSuit, rank: CardRank, joker: Card)
    requires suit != Joker && copy != other && rank <= 12 && IsJoker(joker)
    ensures !IsValidRun([CardOf(copy, suit, rank), CardOf(other, suit, rank + 1)])
    ensures IsValidCombination([CardOf(copy, suit, rank), CardOf(other, suit, rank + 1), joker], false)
  {
    var low, high := CardOf(copy, suit, rank), CardOf(other, suit, rank + 1);
    DecodeCardOf(copy, suit, rank);
    DecodeCardOf(other, suit, rank + 1);
    assert high != low + 1;
    FiltersOfPairAndJoker(low, high, joker);
    assert Step([low, high], 1) == 1;
    assert AreCardsSameSuit([low, high]) && GapValid([low, high]);
    SortByRankKeepsSorted([low, high]);
    OneJokerCombination([low, high, joker]);
  }

  /**
   * Suits are not compared in a set: a card, its twin from the next copy and
   * a third card of the same rank are accepted, even as a pure combination.
   */
  lemma RepeatedFaceSetAccepted(card: Card, other: Card)
    requires !IsJoker(card) && !IsJoker(other) && GetCardRank(card) == GetCardRank(other)
    ensures IsValidCombination([card, card + CopySize, other], true)
  {
    SameFaceAcrossCopies(card, 1);
    var cards := [card, card + CopySize, other];
    NonJokersOfSuited(cards);
    SameRankAccepted(cards, true);
  }
}
