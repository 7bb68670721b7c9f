/** Hand predicates (tmp.py `flush` and `straight`). A hand is the sequence
    of cards passed to the predicate, in the order given. */
module Hands {
  import opened SetFacts
  import opened Cards

  /** The result of an operation that can fail or find nothing. */
  datatype Option<T> = None | Some(value: T)

  /** Every card has the suit of the first card. The first card must exist. */
  function Flush(cards: seq<Card>): (r: bool)
    requires |cards| > 0
    ensures r <==> forall i, j | 0 <= i < |cards| && 0 <= j < |cards| :: cards[i].suit == cards[j].suit
  {
    forall i | 1 <= i < |cards| :: cards[i].suit == cards[0].suit
  }

  /** A hand is a flush exactly when it shows a single suit. */
  lemma FlushIffOneSuit(cards: seq<Card>)
    requires |cards| > 0
    ensures Flush(cards) <==> |set c | c in cards :: c.suit| == 1
  {
    var suits := set c | c in cards :: c.suit;
    if Flush(cards) {
      assert suits == {cards[0].suit};
    } else {
      var i :| 1 <= i < |cards| && cards[i].suit != cards[0].suit;
      assert {cards[0].suit, cards[i].suit} <= suits;
      SubsetCard({cards[0].suit, cards[i].suit}, suits);
    }
  }

  /** The rank ids present among the cards. */
  function RankIds(cards: seq<Card>): set<RankId> {
    set c | c in cards :: Id(c.rank)
  }

  /** No two cards of the hand share a rank id. */
  predicate DistinctRanks(cards: seq<Card>) {
    forall i, j | 0 <= i < j < |cards| :: Id(cards[i].rank) != Id(cards[j].rank)
  }

  /** The hand has one rank id per card exactly when no two cards share one. */
  lemma DistinctRanksCard(cards: seq<Card>)
    ensures |RankIds(cards)| <= |cards|
    ensures |RankIds(cards)| == |cards| <==> DistinctRanks(cards)
  {
    var ids := seq(|cards|, k requires 0 <= k < |cards| => Id(cards[k].rank));
    assert RankIds(cards) == set x | x in ids by {
      forall c | c in cards ensures Id(c.rank) in ids {
        var k :| 0 <= k < |cards| && cards[k] == c;
        assert ids[k] == Id(c.rank);
      }
    }
    SeqSetCardBound(ids);
    if DistinctRanks(cards) {
      DistinctSeqCard(ids);
    } else {
      var i, j :| 0 <= i < j < |cards| && Id(cards[i].rank) == Id(cards[j].rank);
      RepeatedSeqCard(ids, i, j);
    }
  }

  /** The two index tables a straight may be read under. */
  datatype IndexTable = AceHighTable | AceLowTable

  function Index(t: IndexTable, id: RankId): int {
    match t
    case AceHighTable => IndexAceHi(id)
    case AceLowTable => IndexAceLo(id)
  }

  /** The indices of the rank ids under a table. */
  function Indices(ids: set<RankId>, t: IndexTable): set<int> {
    set id | id in ids :: Index(t, id)
  }

  /** Both tables are injective, so there are as many indices as ids. */
  lemma IndicesCard(ids: set<RankId>, t: IndexTable)
    ensures |Indices(ids, t)| == |ids|
  {
    AceHiTable();
    AceLoTable();
    var f := (id: RankId) => Index(t, id);
    InjectiveImageCard(ids, f);
    assert Indices(ids, t) == Image(ids, f);
  }

  /** The least element of a non-empty set of integers. */
  function Min(s: set<int>): (m: int)
    requires s != {}
    ensures m in s && forall x | x in s :: m <= x
  {
    var least := Least(s);
    var m :| m in s && forall x | x in s :: m <= x;
    m
  }

  /** A least element, found by removing an arbitrary element and comparing. */
  ghost function Least(s: set<int>): (m: int)
    requires s != {}
    ensures m in s && forall x | x in s :: m <= x
    decreases |s|
  {
    var y := Pick(s);
    if s == {y} then y
    else
      var m := Least(s - {y});
      assert forall x | x in s :: x == y || x in s - {y};
      if y < m then y else m
  }

  /** The elements of a finite set of integers in ascending order. */
  function SortedInts(s: set<int>): (r: seq<int>)
    ensures |r| == |s|
    ensures forall x :: x in r <==> x in s
    ensures forall i, j | 0 <= i < j < |r| :: r[i] < r[j]
    decreases |s|
  {
    if s == {} then []
    else
      var m := Min(s);
      var rest := SortedInts(s - {m});
      PrependLeast(m, rest);
      [m] + rest
  }

  /** Putting a value below every element in front of an ascending sequence
      keeps it ascending. */
  lemma PrependLeast(m: int, rest: seq<int>)
    requires forall i, j | 0 <= i < j < |rest| :: rest[i] < rest[j]
    requires forall x | x in rest :: m < x
    ensures forall i, j | 0 <= i < j < |[m] + rest| :: ([m] + rest)[i] < ([m] + rest)[j]
  {
    var r := [m] + rest;
    forall i, j | 0 <= i < j < |r| ensures r[i] < r[j] {
      assert r[j] == rest[j - 1] && r[j] in rest;
      if i > 0 {
        assert r[i] == rest[i - 1];
      }
    }
  }

  /** The sorted indices of `ranks` under `t`, starting at their first
      element i, read i, i+1, ..., i+l-1, where l is the number of ranks. */
  function RunUnder(ranks: set<RankId>, t: IndexTable): bool
    requires ranks != {}
  {
    IndicesCard(ranks, t);
    var indices := SortedInts(Indices(ranks, t));
    var i := indices[0];
    var l := |ranks|;
    forall k | 0 <= k < l :: indices[k] == i + k
  }

  /** The cards form a straight: no rank id repeats and the indices form a
      gap-free run under the ace-high or the ace-low table. The source reads
      its first index, so the hand must not be empty. */
  function Straight(cards: seq<Card>): (r: bool)
    requires |cards| > 0
    ensures r ==> DistinctRanks(cards)
  {
    var ranks := RankIds(cards);
    var l := |ranks|;
    DistinctRanksCard(cards);
    if l != |cards| then false
    else RunUnder(ranks, AceHighTable) || RunUnder(ranks, AceLowTable)
  }

  /** `straight` as tmp.py:84 writes it: the index list is built from
      `rankids`, a name bound nowhere, so every call that gets past the
      repeated-rank test raises NameError (None here). */
  function StraightAsWritten(cards: seq<Card>): (r: Option<bool>)
    ensures r.None? <==> DistinctRanks(cards)
    ensures r.Some? ==> !r.value
  {
    DistinctRanksCard(cards);
    if |RankIds(cards)| != |cards| then Some(false) else None
  }

  /** The wheel, which the source's own example expects to be a straight,
      raises instead of answering, and so does every hand without repeated
      ranks. */
  lemma StraightAsWrittenFailsOnWheel()
    ensures StraightAsWritten(Wheel(Clubs, Hearts, Spades, Clubs, Hearts)) == None
    ensures Straight(Wheel(Clubs, Hearts, Spades, Clubs, Hearts))
  {
    WheelFacts(Clubs, Hearts, Spades, Clubs, Hearts);
    WheelIsStraight(Clubs, Hearts, Spades, Clubs, Hearts);
  }


  /** Where the source answers at all, it agrees with the corrected Straight. */
  lemma StraightAgreesWhereSourceAnswers(cards: seq<Card>)
    requires |cards| > 0 && StraightAsWritten(cards).Some?
    ensures Straight(cards) == StraightAsWritten(cards).value
  {
  }

  /** The set `s` holds exactly the integers lo, lo+1, ..., lo+n-1. */
  ghost predicate IsInterval(s: set<int>, lo: int, n: nat) {
    forall x :: x in s <==> lo <= x < lo + n
  }

  /** In a strictly increasing sequence, position k lies at least k above the first element. */
  lemma {:induction false} IncreasingFromBelow(s: seq<int>, lo: int, k: nat)
    requires forall i, j | 0 <= i < j < |s| :: s[i] < s[j]
    requires |s| > 0 && lo <= s[0] && k < |s|
    ensures lo + k <= s[k]
  {
    if k > 0 {
      IncreasingFromBelow(s, lo, k - 1);
    }
  }

  /** In a strictly increasing sequence below hi, position k lies at least |s|-k below hi. */
  lemma {:induction false} IncreasingFromAbove(s: seq<int>, hi: int, k: nat)
    requires forall i, j | 0 <= i < j < |s| :: s[i] < s[j]
    requires forall i | 0 <= i < |s| :: s[i] < hi
    requires k < |s|
    ensures s[k] <= hi - (|s| - k)
    decreases |s| - k
  {
    if k < |s| - 1 {
      IncreasingFromAbove(s, hi, k + 1);
    }
  }

  /** The elements of `s`, ascending without repeats, listed in order. */
  ghost predicate ListsAscending(s: seq<int>, idx: set<int>) {
    && (forall x :: x in s <==> x in idx)
    && (forall i, j | 0 <= i < j < |s| :: s[i] < s[j])
  }

  /** An ascending listing that steps by one lists an interval. */
  lemma RunIsInterval(s: seq<int>, idx: set<int>)
    requires |s| > 0 && ListsAscending(s, idx)
    requires forall k | 0 <= k < |s| :: s[k] == s[0] + k
    ensures IsInterval(idx, s[0], |s|)
  {
    forall x ensures x in idx <==> s[0] <= x < s[0] + |s| {
      if s[0] <= x < s[0] + |s| {
        assert s[x - s[0]] == x;
      }
    }
  }

  /** An ascending listing of an interval steps by one. */
  lemma IntervalIsRun(s: seq<int>, idx: set<int>, lo: int)
    requires |s| > 0 && |s| == |idx| && ListsAscending(s, idx)
    requires IsInterval(idx, lo, |s|)
    ensures forall k | 0 <= k < |s| :: s[k] == s[0] + k
  {
    forall k | 0 <= k < |s| ensures s[k] == lo + k {
      assert forall m | 0 <= m < |s| :: s[m] in idx;
      IncreasingFromBelow(s, lo, k);
      IncreasingFromAbove(s, lo + |s|, k);
    }
  }

  /** The run check on one table holds exactly when the indices are an interval. */
  lemma RunUnderIffInterval(ranks: set<RankId>, t: IndexTable)
    requires ranks != {}
    ensures RunUnder(ranks, t) <==> exists lo :: IsInterval(Indices(ranks, t), lo, |ranks|)
  {
    if RunUnder(ranks, t) {
      RunUnderIsInterval(ranks, t);
    }
    if exists lo :: IsInterval(Indices(ranks, t), lo, |ranks|) {
      var lo :| IsInterval(Indices(ranks, t), lo, |ranks|);
      IntervalIsRunUnder(ranks, t, lo);
    }
  }

  lemma RunUnderIsInterval(ranks: set<RankId>, t: IndexTable)
    requires ranks != {} && RunUnder(ranks, t)
    ensures |SortedInts(Indices(ranks, t))| == |ranks|
    ensures IsInterval(Indices(ranks, t), SortedInts(Indices(ranks, t))[0], |ranks|)
  {
    IndicesCard(ranks, t);
    var idx := Indices(ranks, t);
    SortedListsAscending(idx);
    RunIsInterval(SortedInts(idx), idx);
  }

  lemma IntervalIsRunUnder(ranks: set<RankId>, t: IndexTable, lo: int)
    requires ranks != {} && IsInterval(Indices(ranks, t), lo, |ranks|)
    ensures RunUnder(ranks, t)
  {
    IndicesCard(ranks, t);
    var idx := Indices(ranks, t);
    SortedListsAscending(idx);
    IntervalIsRun(SortedInts(idx), idx, lo);
  }

  /** The sorted listing of a set lists it ascending. */
  lemma SortedListsAscending(idx: set<int>)
    ensures |SortedInts(idx)| == |idx| && ListsAscending(SortedInts(idx), idx)
  {
  }

  /** A hand is a straight exactly when no rank repeats and, under the
      ace-high or the ace-low table, its indices are consecutive integers. */
  lemma StraightIff(cards: seq<Card>)
    requires |cards| > 0
    ensures Straight(cards) <==>
      && DistinctRanks(cards)
      && ((exists lo :: IsInterval(Indices(RankIds(cards), AceHighTable), lo, |cards|))
          || (exists lo :: IsInterval(Indices(RankIds(cards), AceLowTable), lo, |cards|)))
  {
    DistinctRanksCard(cards);
    if DistinctRanks(cards) {
      assert RankIds(cards) != {} by {
        assert Id(cards[0].rank) in RankIds(cards);
      }
      RunUnderIffInterval(RankIds(cards), AceHighTable);
      RunUnderIffInterval(RankIds(cards), AceLowTable);
    }
  }

  /** Five hearts make a flush; swapping the last for a club breaks it. */
  lemma FlushExamples()
    ensures Flush([Card(Ace(NoValue), Hearts), Card(Num(3), Hearts), Card(Num(5), Hearts),
                   Card(Num(7), Hearts), Card(Num(9), Hearts)])
    ensures !Flush([Card(Ace(NoValue), Hearts), Card(Num(3), Hearts), Card(Num(5), Hearts),
                    Card(Num(7), Hearts), Card(Num(9), Clubs)])
  {
    var mixed := [Card(Ace(NoValue), Hearts), Card(Num(3), Hearts), Card(Num(5), Hearts),
                  Card(Num(7), Hearts), Card(Num(9), Clubs)];
    assert mixed[4].suit != mixed[0].suit;
  }

  /** Distinct ranks whose indices under either table form an interval make a straight. */
  lemma StraightFromInterval(cards: seq<Card>, t: IndexTable, lo: int)
    requires |cards| > 0 && DistinctRanks(cards)
    requires IsInterval(Indices(RankIds(cards), t), lo, |cards|)
    ensures Straight(cards)
  {
    StraightIff(cards);
  }

  /** Five rank ids whose indices are five consecutive integers from `lo`
      have exactly that interval as their indices. */
  lemma FiveIdsInterval(a: RankId, b: RankId, c: RankId, d: RankId, e: RankId, t: IndexTable, lo: int)
    requires Index(t, a) == lo && Index(t, b) == lo + 1 && Index(t, c) == lo + 2
    requires Index(t, d) == lo + 3 && Index(t, e) == lo + 4
    ensures IsInterval(Indices({a, b, c, d, e}, t), lo, 5)
  {
    IndicesOfFive(a, b, c, d, e, t);
  }

  /** The rank ids of a five-card hand, one per card. */
  lemma RankIdsOfFive(cards: seq<Card>)
    requires |cards| == 5
    ensures RankIds(cards)
         == {Id(cards[0].rank), Id(cards[1].rank), Id(cards[2].rank), Id(cards[3].rank), Id(cards[4].rank)}
  {
    assert forall c | c in cards :: c == cards[0] || c == cards[1] || c == cards[2] || c == cards[3] || c == cards[4];
  }

  /** The indices of five rank ids under a table, one per id. */
  lemma IndicesOfFive(a: RankId, b: RankId, c: RankId, d: RankId, e: RankId, t: IndexTable)
    ensures Indices({a, b, c, d, e}, t) == {Index(t, a), Index(t, b), Index(t, c), Index(t, d), Index(t, e)}
  {
  }

  /** The wheel A-2-3-4-5, in the given suits. */
  function Wheel(s1: Suit, s2: Suit, s3: Suit, s4: Suit, s5: Suit): seq<Card> {
    [Card(Ace(NoValue), s1), Card(Num(2), s2), Card(Num(3), s3), Card(Num(4), s4), Card(Num(5), s5)]
  }

  /** Broadway A-K-Q-J-10, in the given suits. */
  function Broadway(s1: Suit, s2: Suit, s3: Suit, s4: Suit, s5: Suit): seq<Card> {
    [Card(Ace(NoValue), s1), Card(Num(13), s2), Card(Num(12), s3), Card(Num(11), s4), Card(Num(10), s5)]
  }

  /** The wheel A-2-3-4-5 is a straight, read under the ace-low table. */
  lemma WheelIsStraight(s1: Suit, s2: Suit, s3: Suit, s4: Suit, s5: Suit)
    ensures Straight(Wheel(s1, s2, s3, s4, s5))
  {
    var cards := Wheel(s1, s2, s3, s4, s5);
    WheelFacts(s1, s2, s3, s4, s5);
    StraightFromInterval(cards, AceLowTable, 1);
  }

  lemma WheelFacts(s1: Suit, s2: Suit, s3: Suit, s4: Suit, s5: Suit)
    ensures |Wheel(s1, s2, s3, s4, s5)| == 5
    ensures DistinctRanks(Wheel(s1, s2, s3, s4, s5))
    ensures IsInterval(Indices(RankIds(Wheel(s1, s2, s3, s4, s5)), AceLowTable), 1, 5)
  {
    var cards := Wheel(s1, s2, s3, s4, s5);
    WheelDistinct(s1, s2, s3, s4, s5);
    RankIdsOfFive(cards);
    FiveIdsInterval(AceId, PipId(2), PipId(3), PipId(4), PipId(5), AceLowTable, 1);
  }

  lemma WheelDistinct(s1: Suit, s2: Suit, s3: Suit, s4: Suit, s5: Suit)
    ensures DistinctRanks(Wheel(s1, s2, s3, s4, s5))
  {
  }

  /** Broadway A-K-Q-J-10 is a straight, read under the ace-high table. */
  lemma BroadwayIsStraight(s1: Suit, s2: Suit, s3: Suit, s4: Suit, s5: Suit)
    ensures Straight(Broadway(s1, s2, s3, s4, s5))
  {
    var cards := Broadway(s1, s2, s3, s4, s5);
    BroadwayFacts(s1, s2, s3, s4, s5);
    StraightFromInterval(cards, AceHighTable, 10);
  }

  lemma BroadwayFacts(s1: Suit, s2: Suit, s3: Suit, s4: Suit, s5: Suit)
    ensures |Broadway(s1, s2, s3, s4, s5)| == 5
    ensures DistinctRanks(Broadway(s1, s2, s3, s4, s5))
    ensures IsInterval(Indices(RankIds(Broadway(s1, s2, s3, s4, s5)), AceHighTable), 10, 5)
  {
    var cards := Broadway(s1, s2, s3, s4, s5);
    BroadwayDistinct(s1, s2, s3, s4, s5);
    RankIdsOfFive(cards);
    assert RankIds(cards) == {PipId(10), PipId(11), PipId(12), PipId(13), AceId};
    FiveIdsInterval(PipId(10), PipId(11), PipId(12), PipId(13), AceId, AceHighTable, 10);
  }

  lemma BroadwayDistinct(s1: Suit, s2: Suit, s3: Suit, s4: Suit, s5: Suit)
    ensures DistinctRanks(Broadway(s1, s2, s3, s4, s5))
  {
  }

  /** A-K-Q-J-9 has a gap under both tables, so it is not a straight. */
  lemma GapIsNotStraight()
    ensures !Straight([Card(Ace(NoValue), Clubs), Card(Num(13), Hearts), Card(Num(12), Spades),
                       Card(Num(11), Clubs), Card(Num(9), Hearts)])
  {
    var cards := [Card(Ace(NoValue), Clubs), Card(Num(13), Hearts), Card(Num(12), Spades),
                  Card(Num(11), Clubs), Card(Num(9), Hearts)];
    var ids := RankIds(cards);
    assert AceId in ids && PipId(13) in ids && PipId(9) in ids;
    var hi := Indices(ids, AceHighTable);
    var lo := Indices(ids, AceLowTable);
    assert 14 in hi && 9 in hi;
    assert 1 in lo && 13 in lo;
    StraightIff(cards);
  }

  /** A-K-Q-J-J repeats a rank, so it is not a straight. */
  lemma PairIsNotStraight()
    ensures !Straight([Card(Ace(NoValue), Clubs), Card(Num(13), Hearts), Card(Num(12), Spades),
                       Card(Num(11), Clubs), Card(Num(11), Hearts)])
  {
    var cards := [Card(Ace(NoValue), Clubs), Card(Num(13), Hearts), Card(Num(12), Spades),
                  Card(Num(11), Clubs), Card(Num(11), Hearts)];
    assert Id(cards[3].rank) == Id(cards[4].rank);
  }

  /** Q-K-A-2-3 does not wrap around the ace: it is not a straight. */
  lemma WrapIsNotStraight()
    ensures !Straight([Card(Num(12), Clubs), Card(Num(13), Hearts), Card(Ace(NoValue), Spades),
                       Card(Num(2), Clubs), Card(Num(3), Hearts)])
  {
    var cards := [Card(Num(12), Clubs), Card(Num(13), Hearts), Card(Ace(NoValue), Spades),
                  Card(Num(2), Clubs), Card(Num(3), Hearts)];
    var ids := RankIds(cards);
    assert AceId in ids && PipId(13) in ids && PipId(2) in ids;
    var hi := Indices(ids, AceHighTable);
    var lo := Indices(ids, AceLowTable);
    assert 14 in hi && 2 in hi;
    assert 1 in lo && 13 in lo;
    StraightIff(cards);
  }
}
