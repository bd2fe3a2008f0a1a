/**
 * The debugging printout of a list of cards: "[" followed by one entry per
 * card and "]", where a joker prints as " Joker," and any other card as
 * " <suit>-<rank>," with the names of the suit and rank enumerations.
 *
 * The printout names each card's face in order: reading it back recovers the
 * faces (suit and rank, or joker) of the printed cards.
 */
module Print {
  import opened Deck
  import opened GameSession

  /** The member name of a suit in the suit enumeration. */
  function SuitName(s: CardSuit): (name: string)
    ensures |name| > 0 && ',' !in name && '-' !in name
  {
    match s
    case Clubs => "Clubs"
    case Hearts => "Hearts"
    case Diamond => "Diamond"
    case Spade => "Spade"
    case Joker => "Joker"
  }

  /** The member name of a rank in the rank enumeration (Ace = 1 ... King = 13). */
  function RankName(r: CardRank): (name: string)
    ensures |name| > 0 && ',' !in name
  {
    match r
    case 1 => "Ace" case 2 => "Two" case 3 => "Three" case 4 => "Four" case 5 => "Five"
    case 6 => "Six" case 7 => "Seven" case 8 => "Eight" case 9 => "Nine" case 10 => "Ten"
    case 11 => "Jack" case 12 => "Queen" case _ => "King"
  }

  /** What the printout appends for one card. */
  function Entry(c: Card): (e: string)
    ensures |e| >= 2 && e[0] == ' ' && e[|e| - 1] == ','
    ensures forall i :: 0 <= i < |e| - 1 ==> e[i] != ','
  {
    var s := GetCardSuit(c);
    if s == Joker then " Joker,"
    else " " + SuitName(s) + "-" + RankName(GetCardRank(c)) + ","
  }

  /** The reduce over the cards, accumulating from `acc`. */
  function CardsText(acc: string, cards: seq<Card>): (text: string)
    ensures |acc| <= |text| && text[..|acc|] == acc
    decreases |cards|
  {
    if cards == [] then acc
    else
      var longer := acc + Entry(cards[0]);
      var text := CardsText(longer, cards[1..]);
      assert text[..|acc|] == longer[..|acc|];
      text
  }

  function GetNiceStringSetOfCards(cards: seq<Card>): (text: string)
    ensures |text| >= 2 && text[0] == '[' && text[|text| - 1] == ']'
  {
    "[" + CardsText("", cards) + "]"
  }

  // ---------------------------------------------------------------------
  // Reading a printout back.
  // ---------------------------------------------------------------------

  /** What a printout tells about a card: a joker, or its suit and rank. */
  datatype Face = JokerFace | Suited(suit: CardSuit, rank: CardRank)

  function FaceOf(c: Card): Face
  {
    if IsJoker(c) then JokerFace else Suited(GetCardSuit(c), GetCardRank(c))
  }

  function Faces(cards: seq<Card>): (fs: seq<Face>)
    ensures |fs| == |cards|
    ensures forall i :: 0 <= i < |cards| ==> fs[i] == FaceOf(cards[i])
  {
    if cards == [] then [] else [FaceOf(cards[0])] + Faces(cards[1..])
  }

  /** The entries of the cards, one after the other. */
  function Entries(cards: seq<Card>): string
  {
    if cards == [] then "" else Entry(cards[0]) + Entries(cards[1..])
  }

  /** The suited suit with the given name, if any. */
  function SuitOfName(name: string): (s: Option<CardSuit>)
    ensures s.Some? ==> s.value != Joker && SuitName(s.value) == name
  {
    if name == "Clubs" then Some(Clubs)
    else if name == "Hearts" then Some(Hearts)
    else if name == "Diamond" then Some(Diamond)
    else if name == "Spade" then Some(Spade)
    else None
  }

  /** The rank with the given name, if any. */
  function RankOfName(name: string): (r: Option<CardRank>)
    ensures r.Some? ==> RankName(r.value) == name
  {
    if name == "Ace" then Some(1) else if name == "Two" then Some(2)
    else if name == "Three" then Some(3) else if name == "Four" then Some(4)
    else if name == "Five" then Some(5) else if name == "Six" then Some(6)
    else if name == "Seven" then Some(7) else if name == "Eight" then Some(8)
    else if name == "Nine" then Some(9) else if name == "Ten" then Some(10)
    else if name == "Jack" then Some(11) else if name == "Queen" then Some(12)
    else if name == "King" then Some(13) else None
  }

  /** Reads one entry " Joker," or " <suit>-<rank>,". */
  function ParseEntry(e: string): Option<Face>
  {
    if |e| < 2 || e[0] != ' ' || e[|e| - 1] != ',' then None
    else ParseFaceName(e[1..|e| - 1])
  }

  /** Reads "Joker" or "<suit>-<rank>". */
  function ParseFaceName(name: string): Option<Face>
  {
    if name == "Joker" then Some(JokerFace)
    else
      var dash := IndexOf(name, '-');
      if dash < 0 then None
      else
        match (SuitOfName(name[..dash]), RankOfName(name[dash + 1..]))
        case (Some(s), Some(r)) => Some(Suited(s, r))
        case _ => None
  }

  /** Reads a run of entries, each ending at its first comma. */
  function ParseEntries(t: string): Option<seq<Face>>
    decreases |t|
  {
    if t == [] then Some([])
    else
      var comma := IndexOf(t, ',');
      if comma < 0 then None
      else
        match (ParseEntry(t[..comma + 1]), ParseEntries(t[comma + 1..]))
        case (Some(f), Some(fs)) => Some([f] + fs)
        case _ => None
  }

  /** Reads a whole printout "[...]". */
  function ParsePrintout(text: string): Option<seq<Face>>
  {
    if |text| < 2 || text[0] != '[' || text[|text| - 1] != ']' then None
    else ParseEntries(text[1..|text| - 1])
  }

  // ---------------------------------------------------------------------
  // Properties of the printout.
  // ---------------------------------------------------------------------

  /** The reduce appends the entries of the cards, in order, to its start value. */
  lemma {:induction false} CardsTextIsEntries(acc: string, cards: seq<Card>)
    ensures CardsText(acc, cards) == acc + Entries(cards)
    decreases |cards|
  {
    if cards != [] {
      var e := Entry(cards[0]);
      var rest := Entries(cards[1..]);
      CardsTextIsEntries(acc + e, cards[1..]);
      assert CardsText(acc, cards) == CardsText(acc + e, cards[1..]);
      assert Entries(cards) == e + rest;
      assert (acc + e) + rest == acc + (e + rest);
    }
  }

  /** The first occurrence of x in a + [x] + b is at |a| when a lacks x. */
  lemma IndexOfAfter<T>(a: seq<T>, x: T, b: seq<T>)
    requires x !in a
    ensures IndexOf(a + [x] + b, x) == |a|
  {
    var s := a + [x] + b;
    assert s[|a|] == x;
    IndexOfFirst(s, x);
  }

  /** Reading a rank's name gives back the rank. */
  lemma RankOfNameOfRank(r: CardRank)
    ensures RankOfName(RankName(r)) == Some(r)
  {
  }

  /** Reading a suit's name gives back the suit. */
  lemma SuitOfNameOfSuit(s: CardSuit)
    requires s != Joker
    ensures SuitOfName(SuitName(s)) == Some(s)
  {
  }

  /** The name "<suit>-<rank>" reads back as that suit and rank. */
  lemma ParseSuitedName(s: CardSuit, r: CardRank)
    requires s != Joker
    ensures ParseFaceName(SuitName(s) + "-" + RankName(r)) == Some(Suited(s, r))
  {
    var sn := SuitName(s);
    var rn := RankName(r);
    var name := sn + "-" + rn;
    assert name == sn + ['-'] + rn;
    assert name != "Joker" by {
      assert name[|sn|] == '-';
    }
    IndexOfAfter(sn, '-', rn);
    assert name[..|sn|] == sn && name[|sn| + 1..] == rn;
    SuitOfNameOfSuit(s);
    RankOfNameOfRank(r);
  }

  /** An entry reads back as what its name between the space and the comma reads as. */
  lemma ParseFramedEntry(name: string)
    ensures ParseEntry(" " + name + ",") == ParseFaceName(name)
  {
    var e := " " + name + ",";
    assert e[1..|e| - 1] == name;
  }

  /** Each entry reads back as its card's face. */
  lemma ParseEntryOfEntry(c: Card)
    ensures ParseEntry(Entry(c)) == Some(FaceOf(c))
  {
    if IsJoker(c) {
      ParseFramedEntry("Joker");
    } else {
      var name := SuitName(GetCardSuit(c)) + "-" + RankName(GetCardRank(c));
      assert Entry(c) == " " + name + ",";
      ParseFramedEntry(name);
      ParseSuitedName(GetCardSuit(c), GetCardRank(c));
    }
  }

  /** A run of entries reads back as the faces of the cards. */
  lemma {:induction false} ParseEntriesOfEntries(cards: seq<Card>)
    ensures ParseEntries(Entries(cards)) == Some(Faces(cards))
    decreases |cards|
  {
    if cards != [] {
      var e := Entry(cards[0]);
      var rest := Entries(cards[1..]);
      var t := Entries(cards);
      assert t == e[..|e| - 1] + [','] + rest;
      IndexOfAfter(e[..|e| - 1], ',', rest);
      assert t[..|e|] == e && t[|e|..] == rest;
      ParseEntryOfEntry(cards[0]);
      ParseEntriesOfEntries(cards[1..]);
    }
  }

  /** The printout of a list of cards reads back as the faces of those cards, in order. */
  lemma PrintoutRoundTrip(cards: seq<Card>)
    ensures ParsePrintout(GetNiceStringSetOfCards(cards)) == Some(Faces(cards))
  {
    var text := GetNiceStringSetOfCards(cards);
    CardsTextIsEntries("", cards);
    assert text[1..|text| - 1] == Entries(cards);
    ParseEntriesOfEntries(cards);
  }

  /** Two lists print alike only when they list the same faces in the same order. */
  lemma PrintoutDeterminesFaces(a: seq<Card>, b: seq<Card>)
    requires GetNiceStringSetOfCards(a) == GetNiceStringSetOfCards(b)
    ensures Faces(a) == Faces(b)
  {
    PrintoutRoundTrip(a);
    PrintoutRoundTrip(b);
  }

  /** The empty list prints as "[]", and a joker as "[ Joker,]". */
  lemma PrintoutExamples(c: Card)
    requires IsJoker(c)
    ensures GetNiceStringSetOfCards([]) == "[]"
    ensures GetNiceStringSetOfCards([c]) == "[ Joker,]"
  {
    assert CardsText("", [c]) == CardsText(" Joker,", []);
  }
}
