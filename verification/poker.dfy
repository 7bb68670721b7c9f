/** Choosing cards for poker hands (poker.py): rank replacement, the n
    highest cards, and the best flush. */
module Poker {
  import opened SetFacts
  import opened Cards
  import opened AceResolver
  import opened Hands

  /** The card with its ace value forgotten: every Ace becomes indeterminate. */
  function Plain(c: Card): (p: Card)
    ensures CardEq(p, c) && Key(p) == Key(c)
    ensures p.rank.Ace? ==> p.rank == Ace(NoValue)
    ensures !c.rank.Ace? ==> p == c
  {
    if c.rank.Ace? then Card(Ace(NoValue), c.suit) else c
  }

  /** Two cards are equal as cards exactly when they agree once ace values are forgotten. */
  lemma CardEqIffSamePlain(a: Card, b: Card)
    ensures CardEq(a, b) <==> Plain(a) == Plain(b)
  {
  }

  /** The cards with their ace values forgotten. */
  function Plains(cards: set<Card>): set<Card> {
    set c | c in cards :: Plain(c)
  }

  /** Forgetting ace values loses nothing when no two cards are equal as cards. */
  lemma PlainsCard(cards: set<Card>)
    requires CardEqDistinct(cards)
    ensures |Plains(cards)| == |cards|
  {
    var f := (c: Card) => Plain(c);
    forall a, b | a in cards && b in cards && f(a) == f(b) ensures a == b {
      CardEqIffSamePlain(a, b);
    }
    InjectiveImageCard(cards, f);
    assert Plains(cards) == Image(cards, f);
  }

  /** No two cards of a set of plain cards are equal as cards. */
  lemma PlainsAreDistinct(cards: set<Card>)
    ensures CardEqDistinct(Plains(cards))
  {
    forall a, b | a in Plains(cards) && b in Plains(cards) && CardEq(a, b) ensures a == b {
      CardEqIffSamePlain(a, b);
    }
  }

  /** Forgetting ace values twice is forgetting them once. */
  lemma PlainIsIdempotent(c: Card)
    ensures Plain(Plain(c)) == Plain(c)
  {
  }

  /** A set of cards without ace values is its own plain version. */
  lemma PlainsOfPlainCards(cards: set<Card>)
    requires forall c | c in cards :: Plain(c) == c
    ensures Plains(cards) == cards
  {
  }

  /** One card with a rank in `from` given the rank `to`. */
  function Replaced(c: Card, from: seq<Rank>, to: Rank): Card {
    if c.rank in from then Card(to, c.suit) else c
  }

  /** Every card whose rank is one of `from` takes the rank `to` in its own
      suit; every other card is kept. */
  function ReplaceRank(cards: set<Card>, from: seq<Rank>, to: Rank): (r: set<Card>)
    ensures forall c | c in cards && c.rank !in from :: c in r
    ensures forall c | c in cards && c.rank in from :: Card(to, c.suit) in r
    ensures forall x | x in r ::
              || (x in cards && x.rank !in from)
              || (x.rank == to && exists c :: c in cards && c.rank in from && c.suit == x.suit)
    ensures |r| <= |cards|
  {
    var f := (c: Card) => Replaced(c, from, to);
    ImageCardBound(cards, f);
    assert Image(cards, f) == set c | c in cards :: Replaced(c, from, to);
    set c | c in cards :: Replaced(c, from, to)
  }

  /** replace_rank read with the id-based rank equality of cards.py: a card
      is replaced when its rank has the id of some rank in `from`, so any
      Ace matches a `from` that holds any Ace. */
  function ReplaceRankById(cards: set<Card>, from: seq<Rank>, to: Rank): set<Card> {
    set c | c in cards :: ReplacedById(c, from, to)
  }

  /** One card replaced when its rank has the id of a rank in `from`. */
  function ReplacedById(c: Card, from: seq<Rank>, to: Rank): Card {
    if exists f | f in from :: RankEq(c.rank, f) then Card(to, c.suit) else c
  }

  /** The two readings of rank membership agree on a card set when every Ace
      that `from` does not list by value already has the rank `to`, or
      `from` lists no Ace at all. */
  lemma ReplaceRankReadingsAgree(cards: set<Card>, from: seq<Rank>, to: Rank)
    requires forall c | c in cards && c.rank.Ace? && c.rank !in from && (exists f | f in from :: f.Ace?) :: c.rank == to
    ensures ReplaceRankById(cards, from, to) == ReplaceRank(cards, from, to)
  {
    forall c | c in cards
      ensures ReplacedById(c, from, to) == Replaced(c, from, to)
    {
      if c.rank.Ace? && c.rank !in from && exists f | f in from :: RankEq(c.rank, f) {
        var f :| f in from && RankEq(c.rank, f);
        assert f.Ace?;
        assert Card(to, c.suit) == c;
      }
    }
  }

  /** At every call of replace_rank in poker.py the two readings agree:
      raising to the high Ace (poker.py:22), lowering low and high Aces
      (poker.py:13), and lowering high Aces of cards with no low Ace
      (poker.py:24, whose input has only high Aces). */
  lemma ReplaceRankCallSitesAgree(cards: set<Card>)
    ensures ReplaceRankById(cards, [Ace(NoValue), Ace(Lo)], Ace(Hi)) == ReplaceRank(cards, [Ace(NoValue), Ace(Lo)], Ace(Hi))
    ensures ReplaceRankById(cards, [Ace(Hi), Ace(Lo)], Ace(NoValue)) == ReplaceRank(cards, [Ace(Hi), Ace(Lo)], Ace(NoValue))
    ensures (forall c | c in cards :: c.rank != Ace(Lo)) ==>
              ReplaceRankById(cards, [Ace(Hi)], Ace(NoValue)) == ReplaceRank(cards, [Ace(Hi)], Ace(NoValue))
  {
    forall c | c in cards && c.rank.Ace? && c.rank !in [Ace(NoValue), Ace(Lo)] ensures c.rank == Ace(Hi) {
      assert c.rank.value != NoValue && c.rank.value != Lo;
    }
    ReplaceRankReadingsAgree(cards, [Ace(NoValue), Ace(Lo)], Ace(Hi));
    forall c | c in cards && c.rank.Ace? && c.rank !in [Ace(Hi), Ace(Lo)] ensures c.rank == Ace(NoValue) {
      assert c.rank.value != Hi && c.rank.value != Lo;
    }
    ReplaceRankReadingsAgree(cards, [Ace(Hi), Ace(Lo)], Ace(NoValue));
    if forall c | c in cards :: c.rank != Ace(Lo) {
      forall c | c in cards && c.rank.Ace? && c.rank !in [Ace(Hi)] ensures c.rank == Ace(NoValue) {
        assert c.rank.value != Hi && c.rank.value != Lo;
      }
      ReplaceRankReadingsAgree(cards, [Ace(Hi)], Ace(NoValue));
    }
  }

  /** Off the call sites the readings differ: a low Ace is kept when only
      the high Ace is listed by value, and lowered when ranks match by id. */
  lemma ReplaceRankReadingsDiffer()
    ensures ReplaceRank({Card(Ace(Lo), Hearts)}, [Ace(Hi)], Ace(NoValue)) == {Card(Ace(Lo), Hearts)}
    ensures ReplaceRankById({Card(Ace(Lo), Hearts)}, [Ace(Hi)], Ace(NoValue)) == {Card(Ace(NoValue), Hearts)}
  {
    var c := Card(Ace(Lo), Hearts);
    assert Ace(Lo) !in [Ace(Hi)];
    assert Replaced(c, [Ace(Hi)], Ace(NoValue)) == c;
    assert RankEq(Ace(Lo), Ace(Hi)) && Ace(Hi) in [Ace(Hi)];
    assert ReplacedById(c, [Ace(Hi)], Ace(NoValue)) == Card(Ace(NoValue), Hearts);
  }

  /** Setting every low or high Ace back to indeterminate forgets ace values. */
  lemma LoweringIsPlain(cards: set<Card>)
    ensures ReplaceRank(cards, [Ace(Hi), Ace(Lo)], Ace(NoValue)) == Plains(cards)
  {
    forall c: Card ensures Replaced(c, [Ace(Hi), Ace(Lo)], Ace(NoValue)) == Plain(c) {
      if c.rank.Ace? && c.rank !in [Ace(Hi), Ace(Lo)] {
        assert c.rank.value != Hi && c.rank.value != Lo;
      }
    }
  }

  /** The card with an Ace made high. */
  function Raise(c: Card): (h: Card)
    ensures Plain(h) == Plain(c) && Key(h) == Key(c)
    ensures h.rank.Ace? ==> h.rank == Ace(Hi)
  {
    if c.rank.Ace? then Card(Ace(Hi), c.suit) else c
  }

  /** Raising every indeterminate or low Ace to high makes every Ace high. */
  lemma RaisingIsRaise(cards: set<Card>)
    ensures ReplaceRank(cards, [Ace(NoValue), Ace(Lo)], Ace(Hi)) == set c | c in cards :: Raise(c)
  {
    var f := (c: Card) => Replaced(c, [Ace(NoValue), Ace(Lo)], Ace(Hi));
    forall c | c in cards ensures f(c) == Raise(c) {
      if c.rank.Ace? && c.rank !in [Ace(NoValue), Ace(Lo)] {
        assert c.rank.value == Hi;
      }
    }
    assert Image(cards, f) == set c | c in cards :: Raise(c);
  }

  /** Lowering the high Aces of cards whose Aces are all high forgets ace values. */
  lemma LoweringHighIsPlain(cards: set<Card>)
    requires forall c | c in cards :: c.rank.Ace? ==> c.rank == Ace(Hi)
    ensures ReplaceRank(cards, [Ace(Hi)], Ace(NoValue)) == Plains(cards)
  {
    var f := (c: Card) => Replaced(c, [Ace(Hi)], Ace(NoValue));
    forall c | c in cards ensures f(c) == Plain(c) {
    }
    assert Image(cards, f) == Plains(cards);
  }

  /** Raising every indeterminate or low Ace to high, then lowering every
      high Ace to indeterminate, forgets ace values. */
  lemma RaiseThenLowerIsPlain(cards: set<Card>)
    ensures ReplaceRank(ReplaceRank(cards, [Ace(NoValue), Ace(Lo)], Ace(Hi)), [Ace(Hi)], Ace(NoValue))
         == Plains(cards)
  {
    var raised := set c | c in cards :: Raise(c);
    RaisingIsRaise(cards);
    LoweringHighIsPlain(raised);
    assert Plains(raised) == Plains(cards) by {
      forall x | x in Plains(cards) ensures x in Plains(raised) {
        var c :| c in cards && Plain(c) == x;
        assert Raise(c) in raised;
      }
    }
  }

  /** A hand whose aces are all indeterminate comes back unchanged from raising then lowering. */
  lemma RaiseThenLowerRestores(cards: set<Card>)
    requires Plains(cards) == cards
    ensures ReplaceRank(ReplaceRank(cards, [Ace(NoValue), Ace(Lo)], Ace(Hi)), [Ace(Hi)], Ace(NoValue))
         == cards
  {
    RaiseThenLowerIsPlain(cards);
  }

  /** Lowering the aces of any reification of a hand of indeterminate aces
      gives the hand back. */
  lemma LoweringUndoesReification(cards: set<Card>, h: set<Card>)
    requires Plains(cards) == cards && CardEqDistinct(cards)
    requires h in ReifyAces(cards, AceVals)
    ensures ReplaceRank(h, [Ace(Hi), Ace(Lo)], Ace(NoValue)) == cards
  {
    assert AreAceValues(AceVals);
    ReifyAcesExactly(cards, AceVals, h);
    LoweringIsPlain(h);
    forall x | x in cards ensures x in Plains(h) {
      PlainHandCardIsLowered(cards, h, x);
    }
    forall x | x in Plains(h) ensures x in cards {
      var c :| c in h && Plain(c) == x;
      LoweredCardIsInHand(cards, h, c);
    }
  }

  /** Each card of a hand of indeterminate aces is the plain form of a card of
      any of its reifications. */
  lemma PlainHandCardIsLowered(cards: set<Card>, h: set<Card>, x: Card)
    requires Plains(cards) == cards && IsReification(cards, AceVals, h) && x in cards
    ensures x in Plains(h)
  {
    assert x in Plains(cards);
    if x.rank.Ace? {
      assert x.rank == Ace(NoValue);
      assert x.suit in AceSuits(cards);
      var v :| v in AceVals && Card(v, x.suit) in h - Resolved(cards);
      assert Plain(Card(v, x.suit)) == x;
    } else {
      assert x in Resolved(cards);
    }
  }

  /** The plain form of each card of a reification is a card of the hand of
      indeterminate aces it came from. */
  lemma LoweredCardIsInHand(cards: set<Card>, h: set<Card>, c: Card)
    requires Plains(cards) == cards && IsReification(cards, AceVals, h) && c in h
    ensures Plain(c) in cards
  {
    if c in Resolved(cards) {
      var d :| d in cards && Plain(d) == c;
      assert Plain(c) == c;
    } else {
      assert c in h - Resolved(cards);
      var a :| a in Unresolved(cards) && a.suit == c.suit;
      assert Plain(a) == a;
    }
  }

  /** The replace_rank example: a low Ace of hearts and a high Ace of spades
      become the plain Aces of hearts and spades. */
  lemma ReplaceRankExample()
    ensures ReplaceRank({Card(Ace(Lo), Hearts), Card(Ace(Hi), Spades)}, [Ace(Hi), Ace(Lo)], Ace(NoValue))
         == {Card(Ace(NoValue), Hearts), Card(Ace(NoValue), Spades)}
  {
    var a, b := Card(Ace(Lo), Hearts), Card(Ace(Hi), Spades);
    LoweringIsPlain({a, b});
    PlainsOfTwo(a, b);
  }

  lemma PlainsOfTwo(a: Card, b: Card)
    ensures Plains({a, b}) == {Plain(a), Plain(b)}
  {
  }

  /** A greatest card, found by removing an arbitrary card and comparing. */
  ghost function Greatest(cards: set<Card>): (m: Card)
    requires cards != {} && CardEqDistinct(cards)
    ensures m in cards && forall c | c in cards && c != m :: CardLt(c, m)
    decreases |cards|
  {
    var y := Pick(cards);
    if cards == {y} then y
    else
      var m := Greatest(cards - {y});
      KeyIdentifiesCard(y, m);
      assert forall c | c in cards :: c == y || c in cards - {y};
      if CardLt(m, y) then y else m
  }

  /** The greatest card of a set in which no two cards are equal as cards. */
  function MaxCard(cards: set<Card>): (m: Card)
    requires cards != {} && CardEqDistinct(cards)
    ensures m in cards && forall c | c in cards && c != m :: CardLt(c, m)
  {
    var greatest := Greatest(cards);
    var m :| m in cards && forall c | c in cards && c != m :: CardLt(c, m);
    m
  }

  /** The `n` greatest cards: none when `n` is not positive, all of them when
      `n` is at least their number. */
  function NLargest(n: int, cards: set<Card>): (top: set<Card>)
    requires CardEqDistinct(cards)
    ensures top <= cards
    ensures |top| == if n <= 0 then 0 else if n < |cards| then n else |cards|
    ensures forall x, y | x in top && y in cards - top :: CardLt(y, x)
    decreases |cards|
  {
    if n <= 0 || cards == {} then {}
    else
      var m := MaxCard(cards);
      var rest := NLargest(n - 1, cards - {m});
      assert cards - ({m} + rest) == (cards - {m}) - rest;
      {m} + rest
  }

  /** Raised cards have only high Aces, so no two of them are equal as cards,
      and they are as many as the input's cards once ace values are forgotten. */
  lemma RaisedFacts(cards: set<Card>)
    ensures CardEqDistinct(set c | c in cards :: Raise(c))
    ensures Plains(set c | c in cards :: Raise(c)) == Plains(cards)
    ensures |set c | c in cards :: Raise(c)| == |Plains(cards)|
  {
    var raised := set c | c in cards :: Raise(c);
    forall a, b | a in raised && b in raised && CardEq(a, b) ensures a == b {
    }
    assert Plains(raised) == Plains(cards) by {
      forall x | x in Plains(cards) ensures x in Plains(raised) {
        var c :| c in cards && Plain(c) == x;
        assert Raise(c) in raised;
      }
    }
    PlainsCard(raised);
  }

  /** The plain versions of the `n` greatest raised cards: input cards with
      ace values forgotten, as many as asked for or as there are, above every
      input card they leave out. */
  lemma TopOfRaised(cards: set<Card>, n: int)
    ensures CardEqDistinct(set c | c in cards :: Raise(c))
    ensures var top := NLargest(n, set c | c in cards :: Raise(c));
      && Plains(top) <= Plains(cards)
      && |Plains(top)| == (if n <= 0 then 0 else if n < |Plains(cards)| then n else |Plains(cards)|)
      && forall x, c | x in Plains(top) && c in cards && Plain(c) !in Plains(top) :: CardLt(c, x)
  {
    var raised := set c | c in cards :: Raise(c);
    RaisedFacts(cards);
    var top := NLargest(n, raised);
    assert CardEqDistinct(top);
    PlainsCard(top);
    forall x, c | x in Plains(top) && c in cards && Plain(c) !in Plains(top) ensures CardLt(c, x) {
      LeftOutIsBelow(cards, raised, top, x, c);
    }
  }

  lemma LeftOutIsBelow(cards: set<Card>, raised: set<Card>, top: set<Card>, x: Card, c: Card)
    requires raised == set c | c in cards :: Raise(c)
    requires top <= raised && forall t, y | t in top && y in raised - top :: CardLt(y, t)
    requires x in Plains(top) && c in cards && Plain(c) !in Plains(top)
    ensures CardLt(c, x)
  {
    var t :| t in top && Plain(t) == x;
    assert Raise(c) in raised && Raise(c) !in top;
    assert CardLt(Raise(c), t);
    assert Key(c) == Key(Raise(c)) && Key(t) == Key(x);
  }

  /** The `n` highest cards, aces counting high, returned with their aces
      indeterminate: the result holds input cards with ace values forgotten,
      as many as asked for or as there are, and every input card left out
      ranks below every card chosen. */
  function HighestN(cards: set<Card>, n: int): (r: set<Card>)
    ensures r <= Plains(cards)
    ensures forall x | x in r :: x.rank.Ace? ==> x.rank == Ace(NoValue)
    ensures |r| == if n <= 0 then 0 else if n < |Plains(cards)| then n else |Plains(cards)|
    ensures forall x, c | x in r && c in cards && Plain(c) !in r :: CardLt(c, x)
  {
    var raised := ReplaceRank(cards, [Ace(NoValue), Ace(Lo)], Ace(Hi));
    RaisingIsRaise(cards);
    RaisedFacts(cards);
    var top := NLargest(n, raised);
    LoweringHighIsPlain(top);
    TopOfRaised(cards, n);
    ReplaceRank(top, [Ace(Hi)], Ace(NoValue))
  }

  /** `t` holds input cards with ace values forgotten, above every input
      card it leaves out. */
  ghost predicate IsTopOf(t: set<Card>, cards: set<Card>) {
    && t <= Plains(cards)
    && forall x, c | x in t && c in cards && Plain(c) !in t :: CardLt(c, x)
  }

  /** Of two such top sets, one contains the other. */
  lemma TopsAreNested(cards: set<Card>, a: set<Card>, b: set<Card>)
    requires IsTopOf(a, cards) && IsTopOf(b, cards)
    ensures a <= b || b <= a
  {
    if !(a <= b) {
      var x :| x in a && x !in b;
      var c :| c in cards && Plain(c) == x;
      forall y | y in b ensures y in a {
        var d :| d in cards && Plain(d) == y;
        assert Key(x) == Key(c) < Key(y) == Key(d);
        assert !CardLt(d, x);
      }
    }
  }

  /** The three properties of HighestN single out its result. */
  lemma HighestNUnique(cards: set<Card>, n: int, t: set<Card>)
    requires t <= Plains(cards)
    requires |t| == |HighestN(cards, n)|
    requires forall x, c | x in t && c in cards && Plain(c) !in t :: CardLt(c, x)
    ensures t == HighestN(cards, n)
  {
    var r := HighestN(cards, n);
    TopsAreNested(cards, t, r);
    if t <= r {
      SubsetSameCard(t, r);
    } else {
      SubsetSameCard(r, t);
    }
  }

  /** How many of the cards, counted with repeats, have suit `s`. */
  function CountSuit(cards: seq<Card>, s: Suit): (k: nat)
    ensures k <= |cards|
  {
    if cards == [] then 0
    else (if cards[0].suit == s then 1 else 0) + CountSuit(cards[1..], s)
  }

  /** A suit is counted zero times exactly when no card has it. */
  lemma {:induction false} CountSuitZero(cards: seq<Card>, s: Suit)
    ensures CountSuit(cards, s) == 0 <==> forall i | 0 <= i < |cards| :: cards[i].suit != s
  {
    if cards != [] {
      CountSuitZero(cards[1..], s);
      assert forall i | 1 <= i < |cards| :: cards[i] == cards[1..][i - 1];
    }
  }

  /** The counts of the four suits add up to the number of cards. */
  lemma {:induction false} CountsAddUp(cards: seq<Card>)
    ensures CountSuit(cards, Hearts) + CountSuit(cards, Diamonds)
          + CountSuit(cards, Clubs) + CountSuit(cards, Spades) == |cards|
  {
    if cards != [] {
      CountsAddUp(cards[1..]);
    }
  }

  /** The cards of suit `s`, as a set. */
  function OfSuit(cards: seq<Card>, s: Suit): set<Card> {
    set c | c in cards && c.suit == s
  }

  /** The cards of suit `s` are the head, when it has that suit, and those of the tail. */
  lemma OfSuitCons(cards: seq<Card>, s: Suit)
    requires cards != []
    ensures OfSuit(cards, s) == (if cards[0].suit == s then {cards[0]} else {}) + OfSuit(cards[1..], s)
  {
    assert forall c :: c in cards <==> c == cards[0] || c in cards[1..] by {
      assert cards == [cards[0]] + cards[1..];
    }
  }

  /** Without repeated cards, a suit's count is the number of distinct cards of that suit. */
  lemma {:induction false} CountSuitOfDistinct(cards: seq<Card>, s: Suit)
    requires NoDuplicates(cards)
    ensures CountSuit(cards, s) == |OfSuit(cards, s)|
  {
    if cards != [] {
      DistinctTail(cards);
      CountSuitOfDistinct(cards[1..], s);
      OfSuitCons(cards, s);
    }
  }

  /** The largest count of any suit. */
  function MaxCount(cards: seq<Card>): (m: nat)
    ensures forall t :: CountSuit(cards, t) <= m
    ensures exists t :: CountSuit(cards, t) == m
  {
    var h, d := CountSuit(cards, Hearts), CountSuit(cards, Diamonds);
    var c, s := CountSuit(cards, Clubs), CountSuit(cards, Spades);
    var hd := if h >= d then h else d;
    var cs := if c >= s then c else s;
    if hd >= cs then hd else cs
  }

  /** Some card has a suit of the largest count. */
  lemma MaxCountAppears(cards: seq<Card>)
    requires |cards| > 0
    ensures exists k | 0 <= k < |cards| :: CountSuit(cards, cards[k].suit) == MaxCount(cards)
  {
    var t :| CountSuit(cards, t) == MaxCount(cards);
    assert CountSuit(cards, cards[0].suit) > 0;
    CountSuitZero(cards, t);
  }

  /** The first position from `i` on whose suit is counted `m` times. */
  function FirstWithCount(cards: seq<Card>, i: nat, m: nat): (j: nat)
    requires i <= |cards|
    requires exists k | i <= k < |cards| :: CountSuit(cards, cards[k].suit) == m
    ensures i <= j < |cards| && CountSuit(cards, cards[j].suit) == m
    ensures forall k | i <= k < j :: CountSuit(cards, cards[k].suit) != m
    decreases |cards| - i
  {
    if CountSuit(cards, cards[i].suit) == m then i
    else FirstWithCount(cards, i + 1, m)
  }

  /** The most common suit among the cards; among equally common suits, the
      one whose first card comes first, which is the suit Counter.most_common
      puts first since it keeps the order in which suits were first seen. */
  function MostCommonSuit(cards: seq<Card>): (s: Suit)
    requires |cards| > 0
    ensures exists k | 0 <= k < |cards| :: cards[k].suit == s
    ensures forall t :: CountSuit(cards, t) <= CountSuit(cards, s)
    ensures forall j | 0 <= j < |cards| && CountSuit(cards, cards[j].suit) == CountSuit(cards, s) ::
              exists k | 0 <= k <= j :: cards[k].suit == s
  {
    MaxCountAppears(cards);
    var first := FirstWithCount(cards, 0, MaxCount(cards));
    FirstIsEarliest(cards, first);
    cards[first].suit
  }

  /** The first card whose suit is counted most often comes no later than any
      card of an equally common suit. */
  lemma FirstIsEarliest(cards: seq<Card>, first: nat)
    requires first < |cards| && CountSuit(cards, cards[first].suit) == MaxCount(cards)
    requires forall k | 0 <= k < first :: CountSuit(cards, cards[k].suit) != MaxCount(cards)
    ensures forall j | 0 <= j < |cards| && CountSuit(cards, cards[j].suit) == MaxCount(cards) ::
              exists k | 0 <= k <= j :: cards[k].suit == cards[first].suit
  {
    forall j | 0 <= j < |cards| && CountSuit(cards, cards[j].suit) == MaxCount(cards)
      ensures exists k | 0 <= k <= j :: cards[k].suit == cards[first].suit
    {
      assert first <= j;
    }
  }

  /** The best `n`-card flush: the cards of the most common suit when it has
      exactly `n`, its `n` highest cards when it has more, and nothing when
      every suit has fewer than `n`. */
  function BestFlush(cards: seq<Card>, n: int): (r: Option<set<Card>>)
    requires |cards| > 0
    ensures r.None? <==> forall t :: CountSuit(cards, t) < n
    ensures r.Some? ==> forall x | x in r.value :: x.suit == MostCommonSuit(cards)
    ensures r.Some? ==> forall x | x in r.value :: exists i | 0 <= i < |cards| :: CardEq(x, cards[i])
    ensures r.Some? ==> forall x, i | x in r.value && 0 <= i < |cards| && cards[i].suit == x.suit
                                       && Plain(cards[i]) !in Plains(r.value) :: CardLt(cards[i], x)
  {
    var suit := MostCommonSuit(cards);
    var nmatching := CountSuit(cards, suit);
    var matching := OfSuit(cards, suit);
    MostCommonBelow(cards, n);
    if nmatching > n then
      var best := HighestN(matching, n);
      BestOfMatching(cards, suit, n, best);
      Some(best)
    else if nmatching == n then
      AllOfMatching(cards, suit);
      Some(matching)
    else
      None
  }

  /** When the most common suit has exactly `n` cards, those cards are the best flush. */
  lemma BestFlushExact(cards: seq<Card>, n: int)
    requires |cards| > 0 && CountSuit(cards, MostCommonSuit(cards)) == n
    ensures BestFlush(cards, n) == Some(OfSuit(cards, MostCommonSuit(cards)))
  {
  }

  /** When the most common suit has more than `n` cards, the best flush is
      the `n` highest of them. */
  lemma BestFlushAbove(cards: seq<Card>, n: int)
    requires |cards| > 0 && CountSuit(cards, MostCommonSuit(cards)) > n
    ensures BestFlush(cards, n) == Some(HighestN(OfSuit(cards, MostCommonSuit(cards)), n))
  {
  }

  /** Every suit is counted fewer than `n` times exactly when the most common one is. */
  lemma MostCommonBelow(cards: seq<Card>, n: int)
    requires |cards| > 0
    ensures CountSuit(cards, MostCommonSuit(cards)) < n <==> forall t :: CountSuit(cards, t) < n
  {
  }

  lemma BestOfMatching(cards: seq<Card>, suit: Suit, n: int, best: set<Card>)
    requires best == HighestN(OfSuit(cards, suit), n)
    ensures forall x | x in best :: x.suit == suit
    ensures forall x | x in best :: exists i | 0 <= i < |cards| :: CardEq(x, cards[i])
    ensures forall x, i | x in best && 0 <= i < |cards| && cards[i].suit == x.suit
                          && Plain(cards[i]) !in Plains(best) :: CardLt(cards[i], x)
  {
    var matching := OfSuit(cards, suit);
    forall x | x in best ensures x.suit == suit && exists i | 0 <= i < |cards| :: CardEq(x, cards[i]) {
      var c :| c in matching && Plain(c) == x;
      var i :| 0 <= i < |cards| && cards[i] == c;
      assert CardEq(x, cards[i]);
    }
    forall x | x in best ensures Plain(x) == x {
      var c :| c in matching && Plain(c) == x;
      PlainIsIdempotent(c);
    }
    PlainsOfPlainCards(best);
    forall x, i | x in best && 0 <= i < |cards| && cards[i].suit == x.suit && Plain(cards[i]) !in Plains(best)
      ensures CardLt(cards[i], x)
    {
      assert cards[i] in matching;
    }
  }

  lemma AllOfMatching(cards: seq<Card>, suit: Suit)
    ensures forall x | x in OfSuit(cards, suit) :: x.suit == suit
    ensures forall x | x in OfSuit(cards, suit) :: exists i | 0 <= i < |cards| :: CardEq(x, cards[i])
    ensures forall x, i | x in OfSuit(cards, suit) && 0 <= i < |cards| && cards[i].suit == x.suit
                          && Plain(cards[i]) !in Plains(OfSuit(cards, suit)) :: CardLt(cards[i], x)
  {
    var matching := OfSuit(cards, suit);
    forall x | x in matching ensures exists i | 0 <= i < |cards| :: CardEq(x, cards[i]) {
      var i :| 0 <= i < |cards| && cards[i] == x;
      assert CardEq(x, cards[i]);
    }
    forall x, i | x in matching && 0 <= i < |cards| && cards[i].suit == x.suit
      ensures Plain(cards[i]) in Plains(matching)
    {
      assert cards[i] in matching;
    }
  }

  /** The distinct cards of a sequence. */
  function CardSet(cards: seq<Card>): set<Card> {
    set c | c in cards
  }

  /** From cards without repeats, none equal as cards, a best flush has
      exactly `n` cards. */
  lemma BestFlushSize(cards: seq<Card>, n: int)
    requires |cards| > 0 && n >= 0
    requires NoDuplicates(cards) && CardEqDistinct(CardSet(cards))
    ensures BestFlush(cards, n).Some? ==> |BestFlush(cards, n).value| == n
  {
    var suit := MostCommonSuit(cards);
    var matching := OfSuit(cards, suit);
    CountSuitOfDistinct(cards, suit);
    var count := CountSuit(cards, suit);
    if count > n {
      assert matching <= CardSet(cards);
      HighestNOfMany(matching, n);
      BestFlushAbove(cards, n);
    } else if count == n {
      BestFlushExact(cards, n);
    } else {
      MostCommonBelow(cards, n);
    }
  }

  /** From more than `n` cards none equal as cards, the `n` highest are `n` cards. */
  lemma HighestNOfMany(cards: set<Card>, n: int)
    requires CardEqDistinct(cards) && |cards| > n >= 0
    ensures |HighestN(cards, n)| == n
  {
    PlainsCard(cards);
  }

  /** Every listing of a best flush is a flush. */
  lemma BestFlushIsFlush(cards: seq<Card>, n: int, hand: seq<Card>)
    requires |cards| > 0 && BestFlush(cards, n).Some?
    requires |hand| > 0 && forall x :: x in hand <==> x in BestFlush(cards, n).value
    ensures Flush(hand)
  {
    var best := BestFlush(cards, n).value;
    var suit := MostCommonSuit(cards);
    assert forall x | x in best :: x.suit == suit;
    forall i | 0 <= i < |hand| ensures hand[i].suit == suit {
      assert hand[i] in best;
    }
  }

  /** A suit that every card has is counted once per card. */
  lemma {:induction false} CountSuitOfFlush(cards: seq<Card>, s: Suit)
    requires forall k | 0 <= k < |cards| :: cards[k].suit == s
    ensures CountSuit(cards, s) == |cards|
  {
    if cards != [] {
      assert forall k | 0 <= k < |cards[1..]| :: cards[1..][k] == cards[k + 1];
      CountSuitOfFlush(cards[1..], s);
    }
  }

  /** A flush of exactly `n` different cards is its own best flush. */
  lemma BestFlushOfFlush(hand: seq<Card>, n: int)
    requires |hand| == n > 0
    requires forall k | 0 <= k < |hand| :: hand[k].suit == hand[0].suit
    ensures BestFlush(hand, n) == Some(CardSet(hand))
  {
    FlushSuitIsMostCommon(hand);
    BestFlushExact(hand, n);
  }

  /** In a flush the one suit is the most common, counted once per card, and
      its cards are all the cards. */
  lemma FlushSuitIsMostCommon(hand: seq<Card>)
    requires |hand| > 0
    requires forall k | 0 <= k < |hand| :: hand[k].suit == hand[0].suit
    ensures MostCommonSuit(hand) == hand[0].suit
    ensures CountSuit(hand, hand[0].suit) == |hand|
    ensures OfSuit(hand, hand[0].suit) == CardSet(hand)
  {
    CountSuitOfFlush(hand, hand[0].suit);
  }

  /** A listing without repeats of a best flush from distinct cards holds
      `n` cards of one suit. */
  lemma ListedBestFlush(cards: seq<Card>, n: int, hand: seq<Card>)
    requires |cards| > 0 && n > 0
    requires NoDuplicates(cards) && CardEqDistinct(CardSet(cards))
    requires BestFlush(cards, n).Some?
    requires NoDuplicates(hand) && forall x :: x in hand <==> x in BestFlush(cards, n).value
    ensures |hand| == n && CardSet(hand) == BestFlush(cards, n).value
    ensures forall k | 0 <= k < |hand| :: hand[k].suit == hand[0].suit
  {
    BestFlushSize(cards, n);
    ListingSize(hand, BestFlush(cards, n).value);
    BestFlushIsFlush(cards, n, hand);
  }

  /** A listing without repeats of a set has one position per element. */
  lemma ListingSize(hand: seq<Card>, cards: set<Card>)
    requires NoDuplicates(hand) && forall x :: x in hand <==> x in cards
    ensures |hand| == |cards| && CardSet(hand) == cards
  {
    DistinctSeqCard(hand);
    assert CardSet(hand) == cards;
  }

  /** A best flush, listed without repeats, is its own best flush. */
  lemma BestFlushIdempotent(cards: seq<Card>, n: int, hand: seq<Card>)
    requires |cards| > 0 && n > 0
    requires NoDuplicates(cards) && CardEqDistinct(CardSet(cards))
    requires BestFlush(cards, n).Some?
    requires NoDuplicates(hand) && forall x :: x in hand <==> x in BestFlush(cards, n).value
    ensures |hand| > 0 && BestFlush(hand, n) == BestFlush(cards, n)
  {
    ListedBestFlush(cards, n, hand);
    BestFlushOfFlush(hand, n);
  }

  /** The royal flush of a suit, with its aces indeterminate. */
  function Royal(s: Suit): set<Card> {
    {Card(Ace(NoValue), s), Card(Num(13), s), Card(Num(12), s), Card(Num(11), s), Card(Num(10), s)}
  }

  /** The royal flush of a suit followed by its 9 and 8. */
  function RoyalNineEight(s: Suit): seq<Card> {
    [Card(Ace(NoValue), s), Card(Num(13), s), Card(Num(12), s), Card(Num(11), s),
     Card(Num(10), s), Card(Num(9), s), Card(Num(8), s)]
  }

  lemma RoyalNineEightFacts(s: Suit)
    ensures forall k | 0 <= k < 7 :: RoyalNineEight(s)[k].suit == s
    ensures NoDuplicates(RoyalNineEight(s))
    ensures forall c | c in CardSet(RoyalNineEight(s)) :: Plain(c) == c
    ensures OfSuit(RoyalNineEight(s), s) == CardSet(RoyalNineEight(s))
  {
  }

  /** The royal flush lies above the 9 and the 8 of its suit. */
  lemma RoyalIsTop(s: Suit)
    ensures |Royal(s)| == 5 && Royal(s) <= CardSet(RoyalNineEight(s))
    ensures forall x, c | x in Royal(s) && c in CardSet(RoyalNineEight(s)) && Plain(c) !in Royal(s) :: CardLt(c, x)
  {
    var cards := CardSet(RoyalNineEight(s));
    forall x, c | x in Royal(s) && c in cards && Plain(c) !in Royal(s) ensures CardLt(c, x) {
      assert c == Card(Num(9), s) || c == Card(Num(8), s);
    }
  }

  /** The best_flush example: from the royal flush and the 9 and 8 of the
      same suit (hearts in the source's example), the best 5-card flush is
      the royal flush. */
  lemma RoyalFlushExample(s: Suit)
    ensures BestFlush(RoyalNineEight(s), 5) == Some(Royal(s))
  {
    var cards := RoyalNineEight(s);
    RoyalNineEightFacts(s);
    FlushSuitIsMostCommon(cards);
    BestFlushAbove(cards, 5);
    RoyalIsHighest(s);
  }

  /** The five highest of the royal flush with its 9 and 8 are the royal flush. */
  lemma RoyalIsHighest(s: Suit)
    ensures HighestN(CardSet(RoyalNineEight(s)), 5) == Royal(s)
  {
    var cards := RoyalNineEight(s);
    var matching := CardSet(cards);
    RoyalNineEightFacts(s);
    PlainsOfPlainCards(matching);
    DistinctSeqCard(cards);
    RoyalIsTop(s);
    HighestNUnique(matching, 5, Royal(s));
  }

  /** Five cards spread over four suits make no 5-card flush. */
  lemma NoFlushExample()
    ensures BestFlush([Card(Ace(NoValue), Hearts), Card(Num(13), Clubs), Card(Num(12), Spades),
                       Card(Num(11), Diamonds), Card(Num(10), Hearts)], 5) == None
  {
    var cards := [Card(Ace(NoValue), Hearts), Card(Num(13), Clubs), Card(Num(12), Spades),
                  Card(Num(11), Diamonds), Card(Num(10), Hearts)];
    forall t ensures CountSuit(cards, t) < 5 {
      assert cards[1].suit != cards[0].suit;
    }
  }
}
