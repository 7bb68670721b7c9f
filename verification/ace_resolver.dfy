/** Ace resolution (tmp.py `reify_aces`): every way of giving each
    indeterminate Ace of a hand a concrete value. */
module AceResolver {
  import opened SetFacts
  import opened Cards

  /** The default ace values: low, then high. */
  const AceVals: seq<Rank> := [Ace(Lo), Ace(Hi)]

  /** A rank has a value unless it is the indeterminate Ace. */
  predicate HasValue(r: Rank) {
    r != Ace(NoValue)
  }

  /** The cards still to be resolved: the indeterminate aces. */
  function Unresolved(cards: set<Card>): set<Card> {
    set c | c in cards && !HasValue(c.rank)
  }

  /** The cards whose rank already has a value. */
  function Resolved(cards: set<Card>): set<Card> {
    set c | c in cards && HasValue(c.rank)
  }

  /** The cards still to resolve and the valued cards split the hand in two,
      and nothing is left to resolve exactly when every card has a value. */
  lemma ResolvedSplit(cards: set<Card>)
    ensures Resolved(cards) + Unresolved(cards) == cards
    ensures Resolved(cards) * Unresolved(cards) == {}
    ensures Unresolved(cards) == {} <==> forall c | c in cards :: HasValue(c.rank)
  {
    if Unresolved(cards) == {} {
      forall c | c in cards ensures HasValue(c.rank) {
        assert c !in Unresolved(cards);
      }
    }
  }

  /** The suits of the indeterminate aces in `cards`. */
  function AceSuits(cards: set<Card>): set<Suit> {
    set c | c in Unresolved(cards) :: c.suit
  }

  /** One recursive step: `ace` becomes the same-suit card of rank `v`. */
  function ReplaceAce(cards: set<Card>, ace: Card, v: Rank): set<Card> {
    Resolved(cards) + (Unresolved(cards) - {ace} + {Card(v, ace.suit)})
  }

  lemma ReplaceAceStep(cards: set<Card>, ace: Card, v: Rank)
    requires ace in Unresolved(cards) && HasValue(v)
    ensures Unresolved(ReplaceAce(cards, ace, v)) == Unresolved(cards) - {ace}
    ensures Resolved(ReplaceAce(cards, ace, v)) == Resolved(cards) + {Card(v, ace.suit)}
    ensures |Unresolved(ReplaceAce(cards, ace, v))| < |Unresolved(cards)|
  {
    var next := ReplaceAce(cards, ace, v);
    assert Unresolved(next) == Unresolved(cards) - {ace};
    assert Resolved(next) == Resolved(cards) + {Card(v, ace.suit)};
  }

  /** All hands obtained by giving every indeterminate ace of `cards` a value
      from `acevals`: pick each indeterminate ace in turn, try every value for
      it and resolve the rest recursively. */
  function ReifyAces(cards: set<Card>, acevals: seq<Rank>): (hands: set<set<Card>>)
    requires forall v | v in acevals :: HasValue(v)
    ensures Unresolved(cards) == {} ==> hands == {cards}
    ensures forall h | h in hands :: Unresolved(h) == {} && Resolved(cards) <= h
    decreases |Unresolved(cards)|, 1
  {
    var todo := Unresolved(cards);
    var done := Resolved(cards);
    if todo == {} then
      assert forall c | c in cards :: c in todo || c in done;
      assert done == cards;
      {done}
    else
      set ace, v, h | ace in todo && v in acevals && h in ReifyWith(cards, ace, v, acevals) :: h
  }

  /** The hands yielded once `ace` has been given the value `v`. */
  function ReifyWith(cards: set<Card>, ace: Card, v: Rank, acevals: seq<Rank>): (hands: set<set<Card>>)
    requires forall v | v in acevals :: HasValue(v)
    requires ace in Unresolved(cards) && v in acevals
    ensures forall h | h in hands :: Unresolved(h) == {} && Resolved(cards) + {Card(v, ace.suit)} <= h
    decreases |Unresolved(cards)|, 0
  {
    ReplaceAceStep(cards, ace, v);
    ReifyAces(ReplaceAce(cards, ace, v), acevals)
  }

  /** The ace values the source passes: each a low or a high Ace. */
  predicate AreAceValues(acevals: seq<Rank>) {
    forall v | v in acevals :: v == Ace(Lo) || v == Ace(Hi)
  }

  /** `r` gives every suit in `suits` exactly one Ace valued from `acevals`,
      and holds nothing else. */
  ghost predicate IsAssignment(suits: set<Suit>, acevals: seq<Rank>, r: set<Card>) {
    && (forall x | x in r :: x.suit in suits && x.rank in acevals)
    && (forall s | s in suits :: exists v :: v in acevals && Card(v, s) in r)
    && (forall x, y | x in r && y in r && x.suit == y.suit :: x == y)
  }

  /** `h` is `cards` with its valued cards kept and each indeterminate ace
      replaced by one same-suit Ace valued from `acevals`. */
  ghost predicate IsReification(cards: set<Card>, acevals: seq<Rank>, h: set<Card>) {
    && Resolved(cards) <= h
    && IsAssignment(AceSuits(cards), acevals, h - Resolved(cards))
  }

  lemma AceSuitsStep(cards: set<Card>, ace: Card, v: Rank)
    requires ace in Unresolved(cards) && HasValue(v)
    ensures AceSuits(ReplaceAce(cards, ace, v)) == AceSuits(cards) - {ace.suit}
  {
    ReplaceAceStep(cards, ace, v);
    var next := ReplaceAce(cards, ace, v);
    forall s | s in AceSuits(cards) - {ace.suit} ensures s in AceSuits(next) {
      var c :| c in Unresolved(cards) && c.suit == s;
      assert c in Unresolved(next);
    }
  }

  /** Giving one ace of a hand without repeated cards a low or high value
      keeps the hand without repeats, and the new ace was not already there. */
  lemma ReplaceAceKeepsDistinct(cards: set<Card>, ace: Card, v: Rank)
    requires CardEqDistinct(cards) && ace in Unresolved(cards)
    requires v == Ace(Lo) || v == Ace(Hi)
    ensures CardEqDistinct(ReplaceAce(cards, ace, v))
    ensures Card(v, ace.suit) !in cards
  {
    assert CardEq(ace, Card(v, ace.suit));
  }

  /** The recursive generator yields exactly the reifications of `cards`. */
  lemma {:induction false} ReifyAcesExactly(cards: set<Card>, acevals: seq<Rank>, h: set<Card>)
    requires CardEqDistinct(cards) && AreAceValues(acevals)
    ensures h in ReifyAces(cards, acevals) <==> IsReification(cards, acevals, h)
    decreases |Unresolved(cards)|
  {
    var todo := Unresolved(cards);
    var done := Resolved(cards);
    var suits := AceSuits(cards);
    if todo == {} {
      assert suits == {};
      assert forall c | c in cards :: c in todo || c in done;
      assert done == cards;
      if IsReification(cards, acevals, h) {
        assert h - done == {};
        assert forall x | x in h :: x in done || x in h - done;
        assert h == done;
      }
    } else {
      if h in ReifyAces(cards, acevals) {
        var ace, v :| ace in todo && v in acevals && h in ReifyWith(cards, ace, v, acevals);
        ReifiedFromStep(cards, acevals, h, ace, v);
      }
      if IsReification(cards, acevals, h) {
        var ace :| ace in todo;
        assert ace.suit in suits;
        var v :| v in acevals && Card(v, ace.suit) in h - done;
        StepFromReified(cards, acevals, h, ace, v);
        assert h in ReifyWith(cards, ace, v, acevals);
      }
    }
  }

  /** A hand yielded after fixing `ace` to `v` is a reification of `cards`. */
  lemma {:induction false} ReifiedFromStep(cards: set<Card>, acevals: seq<Rank>, h: set<Card>, ace: Card, v: Rank)
    requires CardEqDistinct(cards) && AreAceValues(acevals)
    requires ace in Unresolved(cards) && v in acevals
    requires h in ReifyWith(cards, ace, v, acevals)
    ensures IsReification(cards, acevals, h)
    decreases |Unresolved(cards)|, 0
  {
    var done := Resolved(cards);
    var next := ReplaceAce(cards, ace, v);
    var z := Card(v, ace.suit);
    ReplaceAceStep(cards, ace, v);
    AceSuitsStep(cards, ace, v);
    ReplaceAceKeepsDistinct(cards, ace, v);
    ReifyAcesExactly(next, acevals, h);
    var rest := h - Resolved(next);
    AddSuit(AceSuits(cards), acevals, rest, ace.suit, v);
    PeelOne(h, done, z);
  }

  /** Taking away a set and then one more member of `h` is taking away the set
      and keeping that member aside. */
  lemma PeelOne(h: set<Card>, done: set<Card>, z: Card)
    requires done + {z} <= h && z !in done
    ensures h - done == (h - (done + {z})) + {z}
    ensures h - (done + {z}) == (h - done) - {z}
  {
  }

  /** A reification of `cards` that gives `ace` the value `v` is a
      reification of the hand with `ace` already fixed to `v`. */
  lemma {:induction false} StepFromReified(cards: set<Card>, acevals: seq<Rank>, h: set<Card>, ace: Card, v: Rank)
    requires CardEqDistinct(cards) && AreAceValues(acevals)
    requires ace in Unresolved(cards) && v in acevals
    requires IsReification(cards, acevals, h) && Card(v, ace.suit) in h
    ensures h in ReifyWith(cards, ace, v, acevals)
    decreases |Unresolved(cards)|, 0
  {
    var done := Resolved(cards);
    var next := ReplaceAce(cards, ace, v);
    var z := Card(v, ace.suit);
    ReplaceAceStep(cards, ace, v);
    AceSuitsStep(cards, ace, v);
    ReplaceAceKeepsDistinct(cards, ace, v);
    var r := h - done;
    RemoveSuit(AceSuits(cards), acevals, r, ace.suit, v);
    PeelOne(h, done, z);
    assert IsReification(next, acevals, h);
    ReifyAcesExactly(next, acevals, h);
  }

  /** The first suit, in the order of Suits, that is in `suits`. */
  function FirstSuit(suits: set<Suit>): (s: Suit)
    requires suits != {}
    ensures s in suits
  {
    if Hearts in suits then Hearts
    else if Diamonds in suits then Diamonds
    else if Clubs in suits then Clubs
    else assert forall x | x in suits :: x == Spades; Spades
  }

  /** Each set of `rest` extended with a suit-`s` card of each rank in `acevals`. */
  function Extend(rest: set<set<Card>>, s: Suit, acevals: seq<Rank>): set<set<Card>> {
    set r, v | r in rest && v in acevals :: r + {Card(v, s)}
  }

  /** A second enumeration of the assignments, one suit at a time, used to
      count them. */
  function Assignments(suits: set<Suit>, acevals: seq<Rank>): set<set<Card>>
    decreases suits
  {
    if suits == {} then {{}}
    else
      var s := FirstSuit(suits);
      Extend(Assignments(suits - {s}, acevals), s, acevals)
  }

  function Pow(b: nat, e: nat): nat {
    if e == 0 then 1 else b * Pow(b, e - 1)
  }

  lemma MulSucc(a: int, b: int)
    ensures a * (b + 1) == a * b + a
  {
  }

  /** The suit-by-suit enumeration holds exactly the assignments. */
  lemma AssignmentsExactly(suits: set<Suit>, acevals: seq<Rank>, r: set<Card>)
    ensures r in Assignments(suits, acevals) <==> IsAssignment(suits, acevals, r)
  {
    if r in Assignments(suits, acevals) {
      EnumeratedIsAssignment(suits, acevals, r);
    }
    if IsAssignment(suits, acevals, r) {
      AssignmentIsEnumerated(suits, acevals, r);
    }
  }

  /** Every set the enumeration lists is an assignment. */
  lemma {:induction false} EnumeratedIsAssignment(suits: set<Suit>, acevals: seq<Rank>, r: set<Card>)
    requires r in Assignments(suits, acevals)
    ensures IsAssignment(suits, acevals, r)
    decreases suits
  {
    if suits != {} {
      var s := FirstSuit(suits);
      var rest := suits - {s};
      var r0, v :| r0 in Assignments(rest, acevals) && v in acevals && r == r0 + {Card(v, s)};
      EnumeratedIsAssignment(rest, acevals, r0);
      AddSuit(suits, acevals, r0, s, v);
    }
  }

  /** An assignment for `suits` plus one Ace of a further suit is an
      assignment for the larger set of suits. */
  lemma AddSuit(suits: set<Suit>, acevals: seq<Rank>, r: set<Card>, s: Suit, v: Rank)
    requires s in suits && IsAssignment(suits - {s}, acevals, r) && v in acevals
    ensures IsAssignment(suits, acevals, r + {Card(v, s)})
  {
    var z := Card(v, s);
    var r' := r + {z};
    forall x, y | x in r' && y in r' && x.suit == y.suit ensures x == y {
      if x == z || y == z {
        assert x.suit == s && y.suit == s;
      }
    }
    forall t | t in suits ensures exists w :: w in acevals && Card(w, t) in r' {
      if t == s {
        assert Card(v, t) in r';
      } else {
        assert t in suits - {s};
        var w :| w in acevals && Card(w, t) in r;
        assert Card(w, t) in r';
      }
    }
  }

  /** Taking the Ace of one suit out of an assignment leaves an assignment
      for the remaining suits. */
  lemma RemoveSuit(suits: set<Suit>, acevals: seq<Rank>, r: set<Card>, s: Suit, v: Rank)
    requires IsAssignment(suits, acevals, r) && Card(v, s) in r
    ensures IsAssignment(suits - {s}, acevals, r - {Card(v, s)})
  {
    var r' := r - {Card(v, s)};
    forall t | t in suits - {s} ensures exists w :: w in acevals && Card(w, t) in r' {
      var w :| w in acevals && Card(w, t) in r;
      assert Card(w, t) in r';
    }
  }

  /** Every assignment is listed by the enumeration. */
  lemma {:induction false} AssignmentIsEnumerated(suits: set<Suit>, acevals: seq<Rank>, r: set<Card>)
    requires IsAssignment(suits, acevals, r)
    ensures r in Assignments(suits, acevals)
    decreases suits
  {
    if suits == {} {
      assert forall x | x in r :: false;
      assert r == {};
    } else {
      var s := FirstSuit(suits);
      var rest := suits - {s};
      var v :| v in acevals && Card(v, s) in r;
      var r0 := r - {Card(v, s)};
      RemoveSuit(suits, acevals, r, s, v);
      AssignmentIsEnumerated(rest, acevals, r0);
      assert r == r0 + {Card(v, s)};
    }
  }

  /** An assignment has one card per suit. */
  lemma {:induction false} AssignmentSize(suits: set<Suit>, acevals: seq<Rank>, r: set<Card>)
    requires r in Assignments(suits, acevals)
    ensures |r| == |suits|
    decreases suits
  {
    if suits != {} {
      var s := FirstSuit(suits);
      var rest := suits - {s};
      var r0, v :| r0 in Assignments(rest, acevals) && v in acevals && r == r0 + {Card(v, s)};
      AssignmentSize(rest, acevals, r0);
      EnumeratedIsAssignment(rest, acevals, r0);
      assert Card(v, s) !in r0;
    }
  }

  /** Extending with k distinct values multiplies the number of sets by k. */
  lemma {:induction false} ExtendCount(rest: set<set<Card>>, s: Suit, acevals: seq<Rank>)
    requires NoDuplicates(acevals)
    requires forall r, x | r in rest && x in r :: x.suit != s
    ensures |Extend(rest, s, acevals)| == |rest| * |acevals|
    decreases |acevals|
  {
    if acevals == [] {
      assert Extend(rest, s, acevals) == {};
    } else {
      var front := acevals[..|acevals| - 1];
      var w := acevals[|acevals| - 1];
      assert NoDuplicates(front);
      assert w !in front;
      ExtendCount(rest, s, front);
      ExtendLast(rest, s, front, w);
      assert front + [w] == acevals;
      MulSucc(|rest|, |front|);
    }
  }

  /** Extending with one more value w adds |rest| new sets. */
  lemma ExtendLast(rest: set<set<Card>>, s: Suit, front: seq<Rank>, w: Rank)
    requires w !in front
    requires forall r, x | r in rest && x in r :: x.suit != s
    ensures |Extend(rest, s, front + [w])| == |Extend(rest, s, front)| + |rest|
  {
    var lifted := Lift(rest, Card(w, s));
    assert Extend(rest, s, front + [w]) == Extend(rest, s, front) + lifted by {
      assert forall v :: v in front + [w] <==> v in front || v == w;
    }
    assert Extend(rest, s, front) * lifted == {};
    LiftCount(rest, Card(w, s));
  }

  function Lift(rest: set<set<Card>>, x: Card): set<set<Card>> {
    set r | r in rest :: r + {x}
  }

  /** Adding a new card to each set keeps the sets apart. */
  lemma LiftCount(rest: set<set<Card>>, x: Card)
    requires forall r | r in rest :: x !in r
    ensures |Lift(rest, x)| == |rest|
  {
    var add := (r: set<Card>) => r + {x};
    forall r1, r2 | r1 in rest && r2 in rest && add(r1) == add(r2) ensures r1 == r2 {
      assert r1 == add(r1) - {x};
      assert r2 == add(r2) - {x};
    }
    InjectiveImageCard(rest, add);
    assert Lift(rest, x) == Image(rest, add);
  }

  /** There are |acevals| to the power |suits| assignments. */
  lemma {:induction false} AssignmentsCount(suits: set<Suit>, acevals: seq<Rank>)
    requires NoDuplicates(acevals)
    ensures |Assignments(suits, acevals)| == Pow(|acevals|, |suits|)
    decreases suits
  {
    if suits != {} {
      var s := FirstSuit(suits);
      var rest := suits - {s};
      AssignmentsCount(rest, acevals);
      var prev := Assignments(rest, acevals);
      forall r, x | r in prev && x in r ensures x.suit != s {
        EnumeratedIsAssignment(rest, acevals, r);
      }
      ExtendCount(prev, s, acevals);
      assert Assignments(suits, acevals) == Extend(prev, s, acevals);
      assert |suits| == |rest| + 1;
      assert Pow(|acevals|, |suits|) == |acevals| * Pow(|acevals|, |rest|);
    }
  }

  /** Each indeterminate ace has its own suit. */
  lemma AceSuitsCard(cards: set<Card>)
    ensures |AceSuits(cards)| == |Unresolved(cards)|
  {
    var suitOf := (c: Card) => c.suit;
    forall a, b | a in Unresolved(cards) && b in Unresolved(cards) && suitOf(a) == suitOf(b) ensures a == b {
      assert a == Card(Ace(NoValue), a.suit) && b == Card(Ace(NoValue), b.suit);
    }
    InjectiveImageCard(Unresolved(cards), suitOf);
    assert AceSuits(cards) == Image(Unresolved(cards), suitOf);
  }

  /** The cards an assignment adds are not among the valued cards of a hand
      without repeated cards. */
  lemma AssignmentIsNew(cards: set<Card>, acevals: seq<Rank>, r: set<Card>)
    requires CardEqDistinct(cards) && AreAceValues(acevals)
    requires IsAssignment(AceSuits(cards), acevals, r)
    ensures forall x | x in r :: x !in Resolved(cards)
  {
    forall x | x in r ensures x !in cards {
      var c :| c in Unresolved(cards) && c.suit == x.suit;
      assert CardEq(c, x);
    }
  }

  /** Every yielded hand has as many cards as the input. */
  lemma ReifiedHandSize(cards: set<Card>, acevals: seq<Rank>, h: set<Card>)
    requires CardEqDistinct(cards) && AreAceValues(acevals)
    requires h in ReifyAces(cards, acevals)
    ensures |h| == |cards|
  {
    var done := Resolved(cards);
    var r := h - done;
    ReifiedIsJoin(cards, acevals, h);
    AssignmentSize(AceSuits(cards), acevals, r);
    AceSuitsCard(cards);
    SplitCard(cards, h, done, Unresolved(cards), r);
  }

  /** Two sets split alike into a shared part and rests of equal size have equal size. */
  lemma SplitCard(cards: set<Card>, h: set<Card>, done: set<Card>, todo: set<Card>, r: set<Card>)
    requires cards == done + todo && done * todo == {}
    requires h == done + r && done * r == {}
    requires |todo| == |r|
    ensures |h| == |cards|
  {
  }

  /** With k indeterminate aces and distinct ace values, the generator yields
      |acevals| to the power k distinct hands: 2^k for the default low/high. */
  lemma ReifyAcesCount(cards: set<Card>, acevals: seq<Rank>)
    requires CardEqDistinct(cards) && AreAceValues(acevals) && NoDuplicates(acevals)
    ensures |ReifyAces(cards, acevals)| == Pow(|acevals|, |Unresolved(cards)|)
  {
    var done := Resolved(cards);
    var all := Assignments(AceSuits(cards), acevals);
    ReifyAcesAreJoins(cards, acevals);
    JoinsCount(cards, acevals);
    assert |ReifyAces(cards, acevals)| == |all|;
    AssignmentsCount(AceSuits(cards), acevals);
    AceSuitsCard(cards);
  }

  /** The yielded hands are the valued cards joined with each assignment. */
  lemma ReifyAcesAreJoins(cards: set<Card>, acevals: seq<Rank>)
    requires CardEqDistinct(cards) && AreAceValues(acevals)
    ensures ReifyAces(cards, acevals)
         == set r | r in Assignments(AceSuits(cards), acevals) :: Resolved(cards) + r
  {
    var done := Resolved(cards);
    var all := Assignments(AceSuits(cards), acevals);
    var hands := ReifyAces(cards, acevals);
    forall h | h in hands ensures h in set r | r in all :: done + r {
      ReifiedIsJoin(cards, acevals, h);
    }
    forall h | h in set r | r in all :: done + r ensures h in hands {
      var r :| r in all && h == done + r;
      JoinIsReified(cards, acevals, r);
    }
  }

  /** A yielded hand is its valued cards joined with an assignment. */
  lemma ReifiedIsJoin(cards: set<Card>, acevals: seq<Rank>, h: set<Card>)
    requires CardEqDistinct(cards) && AreAceValues(acevals)
    requires h in ReifyAces(cards, acevals)
    ensures h - Resolved(cards) in Assignments(AceSuits(cards), acevals)
    ensures h == Resolved(cards) + (h - Resolved(cards))
  {
    ReifyAcesExactly(cards, acevals, h);
    AssignmentIsEnumerated(AceSuits(cards), acevals, h - Resolved(cards));
  }

  /** The valued cards joined with an assignment make a yielded hand. */
  lemma JoinIsReified(cards: set<Card>, acevals: seq<Rank>, r: set<Card>)
    requires CardEqDistinct(cards) && AreAceValues(acevals)
    requires r in Assignments(AceSuits(cards), acevals)
    ensures Resolved(cards) + r in ReifyAces(cards, acevals)
  {
    EnumeratedIsNew(cards, acevals, r);
    EnumeratedIsAssignment(AceSuits(cards), acevals, r);
    assert Resolved(cards) + r - Resolved(cards) == r;
    ReifyAcesExactly(cards, acevals, Resolved(cards) + r);
  }

  /** An enumerated assignment adds only cards that are not valued cards of the hand. */
  lemma EnumeratedIsNew(cards: set<Card>, acevals: seq<Rank>, r: set<Card>)
    requires CardEqDistinct(cards) && AreAceValues(acevals)
    requires r in Assignments(AceSuits(cards), acevals)
    ensures forall x | x in r :: x !in Resolved(cards)
  {
    EnumeratedIsAssignment(AceSuits(cards), acevals, r);
    AssignmentIsNew(cards, acevals, r);
  }

  /** Joining with a set disjoint from both sides can be undone. */
  lemma JoinCancels(done: set<Card>, r1: set<Card>, r2: set<Card>)
    requires forall x | x in r1 :: x !in done
    requires forall x | x in r2 :: x !in done
    requires done + r1 == done + r2
    ensures r1 == r2
  {
    assert r1 == (done + r1) - done;
    assert r2 == (done + r2) - done;
  }

  lemma JoinsCount(cards: set<Card>, acevals: seq<Rank>)
    requires CardEqDistinct(cards) && AreAceValues(acevals)
    ensures |set r | r in Assignments(AceSuits(cards), acevals) :: Resolved(cards) + r|
         == |Assignments(AceSuits(cards), acevals)|
  {
    var done := Resolved(cards);
    var all := Assignments(AceSuits(cards), acevals);
    var join := (r: set<Card>) => done + r;
    forall r1, r2 | r1 in all && r2 in all && join(r1) == join(r2) ensures r1 == r2 {
      EnumeratedIsNew(cards, acevals, r1);
      EnumeratedIsNew(cards, acevals, r2);
      JoinCancels(done, r1, r2);
    }
    InjectiveImageCard(all, join);
    assert Image(all, join) == set r | r in all :: done + r;
  }

  /** A family of as many reifications as the count allows is all of them. */
  lemma ReificationsExactly(cards: set<Card>, expected: set<set<Card>>)
    requires CardEqDistinct(cards)
    requires forall h | h in expected :: IsReification(cards, AceVals, h)
    requires |expected| == Pow(2, |Unresolved(cards)|)
    ensures ReifyAces(cards, AceVals) == expected
  {
    assert AceVals[0] == Ace(Lo) && AceVals[1] == Ace(Hi);
    forall h | h in expected ensures h in ReifyAces(cards, AceVals) {
      ReifyAcesExactly(cards, AceVals, h);
    }
    ReifyAcesCount(cards, AceVals);
    SubsetSameCard(expected, ReifyAces(cards, AceVals));
  }

  /** One indeterminate ace is reified to a low and to a high ace. */
  lemma OneAceExample()
    ensures ReifyAces({Card(Ace(NoValue), Hearts), Card(Num(4), Clubs)}, AceVals)
         == {{Card(Ace(Lo), Hearts), Card(Num(4), Clubs)}, {Card(Ace(Hi), Hearts), Card(Num(4), Clubs)}}
  {
    var hand := {Card(Ace(NoValue), Hearts), Card(Num(4), Clubs)};
    var alo := {Card(Ace(Lo), Hearts), Card(Num(4), Clubs)};
    var ahi := {Card(Ace(Hi), Hearts), Card(Num(4), Clubs)};
    assert Unresolved(hand) == {Card(Ace(NoValue), Hearts)};
    assert Resolved(hand) == {Card(Num(4), Clubs)};
    assert AceSuits(hand) == {Hearts};
    assert alo - Resolved(hand) == {Card(Ace(Lo), Hearts)};
    assert ahi - Resolved(hand) == {Card(Ace(Hi), Hearts)};
    assert AceVals[0] == Ace(Lo) && AceVals[1] == Ace(Hi);
    assert IsReification(hand, AceVals, alo);
    assert IsReification(hand, AceVals, ahi);
    assert alo != ahi by {
      assert Card(Ace(Lo), Hearts) !in ahi;
    }
    ReificationsExactly(hand, {alo, ahi});
  }

  /** Two aces of different suits, valued independently, reify two indeterminate ones. */
  lemma TwoAcesReification(s1: Suit, s2: Suit, v1: Rank, v2: Rank)
    requires s1 != s2 && v1 in AceVals && v2 in AceVals
    ensures IsReification({Card(Ace(NoValue), s1), Card(Ace(NoValue), s2)}, AceVals,
                          {Card(v1, s1), Card(v2, s2)})
  {
    var hand := {Card(Ace(NoValue), s1), Card(Ace(NoValue), s2)};
    assert Resolved(hand) == {};
    assert AceSuits(hand) == {s1, s2} by {
      assert Unresolved(hand) == hand;
    }
  }

  /** The four low/high combinations for two aces of different suits. */
  function FourCombinations(s1: Suit, s2: Suit): set<set<Card>> {
    {{Card(Ace(Lo), s1), Card(Ace(Lo), s2)}, {Card(Ace(Lo), s1), Card(Ace(Hi), s2)},
     {Card(Ace(Hi), s1), Card(Ace(Lo), s2)}, {Card(Ace(Hi), s1), Card(Ace(Hi), s2)}}
  }

  lemma FourCombinationsCount(s1: Suit, s2: Suit)
    requires s1 != s2
    ensures CardEqDistinct({Card(Ace(NoValue), s1), Card(Ace(NoValue), s2)})
    ensures |FourCombinations(s1, s2)| == Pow(2, |Unresolved({Card(Ace(NoValue), s1), Card(Ace(NoValue), s2)})|)
  {
    var hand := {Card(Ace(NoValue), s1), Card(Ace(NoValue), s2)};
    var lolo := {Card(Ace(Lo), s1), Card(Ace(Lo), s2)};
    var lohi := {Card(Ace(Lo), s1), Card(Ace(Hi), s2)};
    var hilo := {Card(Ace(Hi), s1), Card(Ace(Lo), s2)};
    var hihi := {Card(Ace(Hi), s1), Card(Ace(Hi), s2)};
    assert Unresolved(hand) == hand;
    assert Pow(2, |Unresolved(hand)|) == 4;
    assert |FourCombinations(s1, s2)| == 4 by {
      assert Card(Ace(Lo), s1) !in hilo && Card(Ace(Lo), s1) !in hihi;
      assert Card(Ace(Lo), s2) !in lohi && Card(Ace(Lo), s2) !in hihi;
      assert Card(Ace(Hi), s2) !in hilo;
    }
  }

  lemma FourCombinationsAreReifications(s1: Suit, s2: Suit, h: set<Card>)
    requires s1 != s2 && h in FourCombinations(s1, s2)
    ensures IsReification({Card(Ace(NoValue), s1), Card(Ace(NoValue), s2)}, AceVals, h)
  {
    assert AceVals[0] == Ace(Lo) && AceVals[1] == Ace(Hi);
    var v1 := if Card(Ace(Lo), s1) in h then Ace(Lo) else Ace(Hi);
    var v2 := if Card(Ace(Lo), s2) in h then Ace(Lo) else Ace(Hi);
    assert h == {Card(v1, s1), Card(v2, s2)};
    TwoAcesReification(s1, s2, v1, v2);
  }

  /** Two indeterminate aces of different suits (hearts and clubs in the
      source's example) are reified into all four low/high combinations. */
  lemma TwoAcesExample(s1: Suit, s2: Suit)
    requires s1 != s2
    ensures ReifyAces({Card(Ace(NoValue), s1), Card(Ace(NoValue), s2)}, AceVals) == FourCombinations(s1, s2)
  {
    FourCombinationsCount(s1, s2);
    forall h | h in FourCombinations(s1, s2)
      ensures IsReification({Card(Ace(NoValue), s1), Card(Ace(NoValue), s2)}, AceVals, h)
    {
      FourCombinationsAreReifications(s1, s2, h);
    }
    ReificationsExactly({Card(Ace(NoValue), s1), Card(Ace(NoValue), s2)}, FourCombinations(s1, s2));
  }

  /** A hand holding a low Ace and an indeterminate Ace of one suit (two
      cards equal as cards) can come out with one card: giving the second
      Ace the low value merges it with the first. */
  lemma CardEqualAcesMerge()
    ensures {Card(Ace(Lo), Hearts)} in ReifyAces({Card(Ace(Lo), Hearts), Card(Ace(NoValue), Hearts)}, AceVals)
  {
    var hand := {Card(Ace(Lo), Hearts), Card(Ace(NoValue), Hearts)};
    var ace := Card(Ace(NoValue), Hearts);
    assert Unresolved(hand) == {ace};
    assert Resolved(hand) == {Card(Ace(Lo), Hearts)};
    assert ReplaceAce(hand, ace, Ace(Lo)) == {Card(Ace(Lo), Hearts)};
    assert Unresolved({Card(Ace(Lo), Hearts)}) == {};
    assert AceVals[0] == Ace(Lo);
    assert {Card(Ace(Lo), Hearts)} in ReifyWith(hand, ace, Ace(Lo), AceVals);
  }

  /** A hand without indeterminate aces is yielded unchanged, once. */
  lemma NoAcesExample()
    ensures ReifyAces({Card(Num(5), Hearts), Card(Num(4), Spades)}, AceVals)
         == {{Card(Num(5), Hearts), Card(Num(4), Spades)}}
  {
    assert Unresolved({Card(Num(5), Hearts), Card(Num(4), Spades)}) == {};
  }
}
