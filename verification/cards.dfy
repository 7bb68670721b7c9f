/** Suits, ranks, cards, the two rank-index tables, the card order and the
    standard 52-card deck (cards.py).

    The Ace carries an explicit value: indeterminate (the deck's own aces),
    low (index 1) or high (index 14). Every Ace has the same rank id "A", so
    the id-based comparisons of cards.py treat the three alike; Dafny's `==`
    on `Rank` and `Card` does tell them apart, which is how sets of cards
    keep a low and a high ace of one suit apart. */
module Cards {
  import opened SetFacts

  datatype Suit = Hearts | Diamonds | Clubs | Spades

  /** The suits in their fixed order; a suit's position here is its place in the card order. */
  const Suits: seq<Suit> := [Hearts, Diamonds, Clubs, Spades]

  /** The value of a non-ace rank: 2 to 10, then 11, 12, 13 for J, Q, K. */
  type Pip = n: int | 2 <= n <= 13 witness 2

  datatype AceValue = NoValue | Lo | Hi

  datatype Rank = Num(n: Pip) | Ace(value: AceValue)

  /** The identity of a rank, shared by all three kinds of Ace. */
  datatype RankId = PipId(n: Pip) | AceId

  /** The rank ids with the Ace last: 2, 3, ..., 10, J, Q, K, A. */
  const RankIdsAceHi: seq<RankId> :=
    [PipId(2), PipId(3), PipId(4), PipId(5), PipId(6), PipId(7), PipId(8),
     PipId(9), PipId(10), PipId(11), PipId(12), PipId(13), AceId]

  /** The same ids with the last one (the Ace) moved to the front. */
  const RankIdsAceLo: seq<RankId> := [RankIdsAceHi[12]] + RankIdsAceHi[..12]

  function Id(r: Rank): (id: RankId)
    ensures id == AceId <==> r.Ace?
  {
    match r
    case Num(n) => PipId(n)
    case Ace(_) => AceId
  }

  /** The ace-high index table: the ids of RankIdsAceHi numbered 2 to 14 in order. */
  function IndexAceHi(id: RankId): (k: int)
    ensures 2 <= k <= 14
  {
    match id
    case PipId(n) => n
    case AceId => 14
  }

  /** The ace-low index table: the ace-high table with A mapped to 1 instead. */
  function IndexAceLo(id: RankId): (k: int)
    ensures 1 <= k <= 13
    ensures k == 1 <==> id == AceId
    ensures id != AceId ==> k == IndexAceHi(id)
  {
    if id == AceId then 1 else IndexAceHi(id)
  }

  /** The ace-high table numbers the ace-high id list 2, 3, ..., 14, lists
      every id once, and is injective. */
  lemma AceHiTable()
    ensures |RankIdsAceHi| == 13
    ensures forall i | 0 <= i < 13 :: IndexAceHi(RankIdsAceHi[i]) == i + 2
    ensures forall id: RankId :: id in RankIdsAceHi
    ensures forall a: RankId, b: RankId :: IndexAceHi(a) == IndexAceHi(b) ==> a == b
  {
    forall id: RankId ensures id in RankIdsAceHi {
      assert id == RankIdsAceHi[IndexAceHi(id) - 2];
    }
  }

  /** The ace-low list is the ace-high list with the Ace moved to the front,
      and the ace-low table numbers it 1, 2, ..., 13 in order. */
  lemma AceLoTable()
    ensures |RankIdsAceLo| == 13
    ensures RankIdsAceLo[0] == AceId && RankIdsAceLo[1..] == RankIdsAceHi[..12]
    ensures forall i | 0 <= i < 13 :: IndexAceLo(RankIdsAceLo[i]) == i + 1
    ensures forall a: RankId, b: RankId :: IndexAceLo(a) == IndexAceLo(b) ==> a == b
  {
  }

  /** Rank equality compares ids only: ranks are equal exactly when they are
      the same rank or both some Ace. */
  function RankEq(a: Rank, b: Rank): (r: bool)
    ensures r <==> a == b || (a.Ace? && b.Ace?)
  {
    Id(a) == Id(b)
  }

  /** The default rank order, through the ace-high table. */
  function RankLtAceHi(a: Rank, b: Rank): (r: bool)
    ensures a.Ace? ==> !r
    ensures b.Ace? && !a.Ace? ==> r
    ensures a.Num? && b.Num? ==> (r <==> a.n < b.n)
  {
    IndexAceHi(Id(a)) < IndexAceHi(Id(b))
  }

  /** The alternative rank order, through the ace-low table. */
  function RankLtAceLo(a: Rank, b: Rank): (r: bool)
    ensures b.Ace? ==> !r
    ensures a.Ace? && !b.Ace? ==> r
    ensures a.Num? && b.Num? ==> (r <==> a.n < b.n)
  {
    IndexAceLo(Id(a)) < IndexAceLo(Id(b))
  }

  datatype Card = Card(rank: Rank, suit: Suit)

  /** The position of a suit in Suits (see SuitIndexIsPosition). */
  function SuitIndex(s: Suit): (i: nat)
    ensures i < 4
  {
    match s
    case Hearts => 0
    case Diamonds => 1
    case Clubs => 2
    case Spades => 3
  }

  /** SuitIndex numbers the suits by their positions in Suits, one to one. */
  lemma SuitIndexIsPosition(s: Suit)
    ensures |Suits| == 4 && Suits[SuitIndex(s)] == s
    ensures forall t: Suit :: SuitIndex(t) == SuitIndex(s) ==> t == s
  {
  }

  /** Card equality: same rank (by id) and same suit. */
  function CardEq(a: Card, b: Card): (r: bool)
    ensures r <==> a == b || (a.suit == b.suit && a.rank.Ace? && b.rank.Ace?)
  {
    RankEq(a.rank, b.rank) && a.suit == b.suit
  }

  /** A single number ordering cards suit-major, rank-minor (ace high). */
  function Key(c: Card): int {
    SuitIndex(c.suit) * 15 + IndexAceHi(Id(c.rank))
  }

  /** Card order: by rank within a suit, otherwise by the suits' positions. */
  function CardLt(a: Card, b: Card): (r: bool)
    ensures r <==> Key(a) < Key(b)
  {
    if a.suit == b.suit then RankLtAceHi(a.rank, b.rank)
    else SuitIndex(a.suit) < SuitIndex(b.suit)
  }

  /** Two cards share a key exactly when they are equal as cards. */
  lemma KeyIdentifiesCard(a: Card, b: Card)
    ensures Key(a) == Key(b) <==> CardEq(a, b)
  {
    AceHiTable();
    if Key(a) == Key(b) {
      assert SuitIndex(a.suit) == SuitIndex(b.suit);
      SuitIndexIsPosition(a.suit);
    }
  }

  /** The card order is a strict total order on cards that are not equal. */
  lemma CardOrderIsStrictTotal(a: Card, b: Card, c: Card)
    ensures !CardLt(a, a)
    ensures CardLt(a, b) ==> !CardLt(b, a)
    ensures CardLt(a, b) && CardLt(b, c) ==> CardLt(a, c)
    ensures CardLt(a, b) || CardLt(b, a) || CardEq(a, b)
  {
    KeyIdentifiesCard(a, b);
  }

  /** No two different cards of a collection are equal as cards: every Ace
      suit holds at most one Ace, whatever its value. */
  ghost predicate CardEqDistinct(cards: set<Card>) {
    forall a, b | a in cards && b in cards && CardEq(a, b) :: a == b
  }

  /** The deck's rank for an id; the deck's aces are indeterminate. */
  function RankOf(id: RankId): (r: Rank)
    ensures Id(r) == id && r != Ace(Lo) && r != Ace(Hi)
  {
    match id
    case PipId(n) => Num(n)
    case AceId => Ace(NoValue)
  }

  /** The 13 ranks in ace-high order. */
  const Ranks: seq<Rank> := seq(13, i requires 0 <= i < 13 => RankOf(RankIdsAceHi[i]))

  /** Every suit in turn, every rank within the suit. */
  function Deck(): seq<Card> {
    seq(52, i requires 0 <= i < 52 => Card(Ranks[i % 13], Suits[i / 13]))
  }

  /** The deck card at position i has the suit at i / 13 and the rank whose
      ace-high index is i % 13 + 2. */
  lemma DeckAt(i: int)
    requires 0 <= i < 52
    ensures |Deck()| == 52
    ensures Deck()[i].suit == Suits[i / 13] && SuitIndex(Deck()[i].suit) == i / 13
    ensures IndexAceHi(Id(Deck()[i].rank)) == i % 13 + 2
    ensures Deck()[i].rank != Ace(Lo) && Deck()[i].rank != Ace(Hi)
  {
    AceHiTable();
    var k := i % 13;
    assert Deck()[i].rank == Ranks[k] == RankOf(RankIdsAceHi[k]);
  }

  lemma DeckPosition(id: RankId, s: Suit)
    ensures 0 <= SuitIndex(s) * 13 + IndexAceHi(id) - 2 < 52
    ensures Deck()[SuitIndex(s) * 13 + IndexAceHi(id) - 2] == Card(RankOf(id), s)
  {
    AceHiTable();
    var i := SuitIndex(s) * 13 + IndexAceHi(id) - 2;
    assert i / 13 == SuitIndex(s) && i % 13 == IndexAceHi(id) - 2;
    DeckAt(i);
  }

  /** No two positions of the deck hold cards that are equal as cards. */
  lemma DeckHasNoRepeats()
    ensures |Deck()| == 52
    ensures forall i, j | 0 <= i < j < 52 :: !CardEq(Deck()[i], Deck()[j])
    ensures NoDuplicates(Deck())
  {
    forall i, j | 0 <= i < j < 52 ensures !CardEq(Deck()[i], Deck()[j]) {
      DeckAt(i);
      DeckAt(j);
      KeyIdentifiesCard(Deck()[i], Deck()[j]);
    }
  }

  /** The deck holds 52 cards, no two equal (as cards or as values), one of
      every rank in every suit, all aces indeterminate, 13 ranks and 4 suits. */
  lemma DeckIsComplete()
    ensures |Deck()| == 52
    ensures forall i, j | 0 <= i < j < 52 :: !CardEq(Deck()[i], Deck()[j])
    ensures NoDuplicates(Deck())
    ensures forall id: RankId, s: Suit :: Card(RankOf(id), s) in Deck()
    ensures forall c | c in Deck() :: c.rank != Ace(Lo) && c.rank != Ace(Hi)
    ensures |set c | c in Deck() :: c.suit| == 4
    ensures |set c | c in Deck() :: c.rank| == 13
  {
    DeckHasNoRepeats();
    forall id: RankId, s: Suit ensures Card(RankOf(id), s) in Deck() {
      DeckPosition(id, s);
    }
    forall c | c in Deck() ensures c.rank != Ace(Lo) && c.rank != Ace(Hi) {
      var i :| 0 <= i < 52 && Deck()[i] == c;
      DeckAt(i);
    }
    DeckSuitsAndRanks();
  }

  lemma DeckSuitsAndRanks()
    ensures |set c | c in Deck() :: c.suit| == 4
    ensures |set c | c in Deck() :: c.rank| == 13
  {
    DeckSuits();
    DeckRanks();
  }

  lemma DeckSuits()
    ensures |set c | c in Deck() :: c.suit| == 4
  {
    var suits := set c | c in Deck() :: c.suit;
    forall s: Suit ensures s in suits {
      DeckPosition(AceId, s);
    }
    assert suits == {Hearts, Diamonds, Clubs, Spades};
  }

  lemma DeckRanks()
    ensures |set c | c in Deck() :: c.rank| == 13
  {
    AceHiTable();
    var ranks := set c | c in Deck() :: c.rank;
    forall r | r in Ranks ensures r in ranks {
      DeckPosition(Id(r), Hearts);
    }
    forall c | c in Deck() ensures c.rank in Ranks {
      var i :| 0 <= i < 52 && Deck()[i] == c;
      assert c.rank == Ranks[i % 13];
    }
    assert ranks == set r | r in Ranks;
    assert NoDuplicates(Ranks) by {
      forall i, j | 0 <= i < j < 13 ensures Ranks[i] != Ranks[j] {
        assert IndexAceHi(Id(Ranks[i])) == i + 2;
        assert IndexAceHi(Id(Ranks[j])) == j + 2;
      }
    }
    DistinctSeqCard(Ranks);
  }

  /** `order` lists the positions 0 to n-1, each once. */
  predicate IsPermutationOfRange(order: seq<int>, n: nat) {
    && |order| == n
    && (forall i | 0 <= i < n :: 0 <= order[i] < n)
    && NoDuplicates(order)
  }

  /** A freshly shuffled deck. The random shuffle is the parameter `order`:
      position i of the new deck holds the deck card at order[i]. */
  function NewShuffledDeck(order: seq<int>): (deck: seq<Card>)
    requires IsPermutationOfRange(order, 52)
    ensures |deck| == 52
    ensures multiset(deck) == multiset(Deck())
  {
    var deck := seq(52, i requires 0 <= i < 52 => Deck()[order[i]]);
    PermutedDeck(order, deck);
    deck
  }

  /** Picking the deck's cards in the order of a permutation of positions keeps every card once. */
  lemma PermutedDeck(order: seq<int>, deck: seq<Card>)
    requires IsPermutationOfRange(order, 52)
    requires |deck| == 52 && forall i | 0 <= i < 52 :: deck[i] == Deck()[order[i]]
    ensures multiset(deck) == multiset(Deck())
  {
    DeckHasNoRepeats();
    assert NoDuplicates(deck) by {
      forall i, j | 0 <= i < j < 52 ensures deck[i] != deck[j] {
        assert order[i] != order[j];
      }
    }
    var inDeck := set c | c in deck;
    var inFull := set c | c in Deck();
    assert inDeck <= inFull by {
      forall c | c in inDeck ensures c in inFull {
        var i :| 0 <= i < 52 && deck[i] == c;
        assert Deck()[order[i]] == c;
      }
    }
    DistinctSeqCard(deck);
    DistinctSeqCard(Deck());
    SubsetSameCard(inDeck, inFull);
    forall c ensures c in deck <==> c in Deck() {
      assert c in deck <==> c in inDeck;
      assert c in Deck() <==> c in inFull;
    }
    SameSetSameMultiset(deck, Deck());
  }

  /** Any two shuffled decks hold the same cards, with equal multisets. */
  lemma ShuffledDecksArePermutations(o1: seq<int>, o2: seq<int>)
    requires IsPermutationOfRange(o1, 52) && IsPermutationOfRange(o2, 52)
    ensures multiset(NewShuffledDeck(o1)) == multiset(NewShuffledDeck(o2))
    ensures |set c | c in NewShuffledDeck(o1) :: c.rank| == 13
    ensures |set c | c in NewShuffledDeck(o1) :: c.suit| == 4
  {
    DeckIsComplete();
    SameCardsSameRanksAndSuits(NewShuffledDeck(o1), Deck());
  }

  /** Two orderings of the same cards show the same ranks and the same suits. */
  lemma SameCardsSameRanksAndSuits(d: seq<Card>, e: seq<Card>)
    requires multiset(d) == multiset(e)
    ensures (set c | c in d :: c.rank) == (set c | c in e :: c.rank)
    ensures (set c | c in d :: c.suit) == (set c | c in e :: c.suit)
  {
    forall c ensures c in d <==> c in e {
      assert c in d <==> c in multiset(d);
      assert c in e <==> c in multiset(e);
    }
  }
}
