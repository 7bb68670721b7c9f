# Playing cards and poker hands, modelled in Dafny

This project models the core of a small Python library of playing cards and
poker-hand helpers:

- **cards.py**: the four suits, the thirteen ranks, and the two rank-index
  tables (ace high: 2..14, ace low: A = 1). It also covers rank and card
  equality and order, the 52-card deck, and `new_shuffled_deck`.
- **tmp.py**: the hand predicates `flush` and `straight`, and the generator
  `reify_aces`. That generator gives every indeterminate Ace of a hand a
  concrete low or high value.
- **poker.py**: `replace_rank`, `highestn` (the n highest cards, aces
  counting high) and `best_flush` (the best n-card flush, or None).

Every core function of the library computes a value from its arguments (the
shuffle only reorders a fresh local list), so the model is made of datatypes,
functions and lemmas:

- `set_facts.dfy` (module `SetFacts`): generic cardinality facts.
- `cards.dfy` (module `Cards`)
- `hands.dfy` (module `Hands`): `flush` and `straight`.
- `ace_resolver.dfy` (module `AceResolver`): `reify_aces`.
- `poker.dfy` (module `Poker`)

Modelling choices:

- **One Rank datatype.** A rank is `Num(2..13)` or `Ace(v)`, with `v` one of
  `NoValue`, `Lo` or `Hi`.
  - The rank id is what cards.py compares. It is shared by the three kinds of
    Ace.
  - Dafny's `==` tells the three apart. That is how a set of cards holds a low
    and a high ace of one suit as two members, as the `reify_aces` examples
    need.
  - The id-based equality of cards.py:21 and 36 is `RankEq` and `CardEq`.
- **Hands are sequences or sets.** `flush`, `straight` and `best_flush` take
  their varargs tuple as a `seq<Card>`. Their length matters, and for
  `best_flush` so does the order in which suits are first seen.
  `replace_rank`, `highestn` and `reify_aces` build Python sets, so they take
  and return `set<Card>`.
- **The shuffle is a parameter.** The random shuffle of `new_shuffled_deck`
  becomes `order`, a permutation of the positions 0..51.
- **Empty input is excluded.** The source raises on an empty hand:
  - `flush` calls `next` on an empty iterator;
  - `straight` reads `indices[0]`;
  - `best_flush` reads `most_common(1)[0]`.

  These functions therefore require a non-empty hand.
- **Ties in the most common suit.** `Counter.most_common(1)` returns the first
  suit, in first-seen order, among those with the largest count.
  `MostCommonSuit` states exactly that.

## Model

| member | source | states |
|---|---|---|
| Cards.Suits | cards.py:12 | the suits in SUITS order; SuitIndexIsPosition states that SuitIndex is the position in it |
| Cards.RankIdsAceHi | cards.py:16 | the rank ids 2..10, J, Q, K, A; AceHiTable states its length, numbering and completeness |
| Cards.RankIdsAceLo | cards.py:17 | the same ids with the Ace moved to the front; AceLoTable states it |
| Cards.IndexAceHi | cards.py:18 | every ace-high index lies in 2..14; AceHiTable pins each id to its position plus 2 |
| Cards.AceHiTable | cards.py:16-18 | the ace-high id list has 13 ids, is numbered 2..14 in order, lists every rank id, and the table is injective |
| Cards.AceLoTable | cards.py:17-19 | the ace-low list is the ace-high list with the Ace moved to the front; it is numbered 1..13 in order, and the table is injective |
| Cards.IndexAceLo | cards.py:19 | the ace-low index is 1 exactly for the Ace and otherwise agrees with the ace-high index |
| Cards.RankEq | cards.py:21 | ranks are equal exactly when they are the same rank or both Aces |
| Cards.RankLtAceHi | cards.py:22 | under the ace-high table an Ace is below nothing, beats every non-ace, and numbers compare by value |
| Cards.RankLtAceLo | cards.py:23 | under the ace-low table nothing is below an Ace, an Ace is below every non-ace, and numbers compare by value |
| Cards.SuitIndexIsPosition | cards.py:12 | SuitIndex is the position of the suit in SUITS, one to one |
| Cards.CardEq | cards.py:36 | cards are equal exactly when identical, or when they are Aces of one suit |
| Cards.CardLt | cards.py:37 | the card order is the order of a single key: suit position major, ace-high rank minor |
| Cards.KeyIdentifiesCard | cards.py:36-37 | two cards share that key exactly when they are equal as cards |
| Cards.CardOrderIsStrictTotal | cards.py:36-38 | the card order is irreflexive, asymmetric and transitive, and any two cards are ordered or equal |
| Cards.RankOf | cards.py:26 | the deck rank for an id has that id and is never a low or high Ace |
| Cards.Ranks | cards.py:26 | the 13 deck ranks in ace-high order, aces indeterminate; DeckRanks states that the deck shows all 13 |
| Cards.Deck | cards.py:39 | the CARDS tuple, suit-major; DeckAt, DeckPosition and DeckIsComplete state its layout and completeness |
| Cards.DeckAt | cards.py:39 | deck position i holds the suit at i / 13 and the rank of ace-high index i % 13 + 2 |
| Cards.DeckPosition | cards.py:39 | every rank of every suit sits at the position its suit and rank give |
| Cards.DeckHasNoRepeats | cards.py:39 | no two deck positions hold cards that are equal as cards |
| Cards.DeckIsComplete | cards.py:39 | the deck has 52 cards, no repeats, every rank in every suit, only indeterminate aces, 13 ranks and 4 suits |
| Cards.DeckSuits | cards.py:51-52 | the deck shows 4 distinct suits |
| Cards.DeckRanks | cards.py:49-50 | the deck shows 13 distinct ranks |
| Cards.NewShuffledDeck | cards.py:43-61 | a shuffled deck has 52 cards and is a permutation of the standard deck |
| Cards.PermutedDeck | cards.py:59-60 | taking the deck's cards in the order of a permutation of positions keeps each card exactly once |
| Cards.ShuffledDecksArePermutations | cards.py:46-57 | any two shuffled decks have equal multisets of cards; each shows 13 ranks and 4 suits |
| Cards.SameCardsSameRanksAndSuits | cards.py:49-56 | two orderings of the same cards show the same ranks and the same suits |
| Hands.Flush | tmp.py:13-15 | all suits equal the first card's suit exactly when every pair of cards shares a suit |
| Hands.FlushIffOneSuit | tmp.py:6-15 | a hand is a flush exactly when it shows a single suit |
| Hands.FlushExamples | tmp.py:8-11 | five hearts are a flush; with the last card a club they are not |
| Hands.RankIds | tmp.py:80 | the set of rank ids of the hand; DistinctRanksCard states when it has one id per card |
| Hands.DistinctRanksCard | tmp.py:80-82 | the set of rank ids is never larger than the hand, and equals its size exactly when no rank repeats |
| Hands.IndicesCard | tmp.py:83-84 | both index tables give as many indices as rank ids |
| Hands.SortedInts | tmp.py:84 | sorting a set of indices lists each element once, in strictly ascending order |
| Hands.Straight | tmp.py:80-88 | a straight never repeats a rank |
| Hands.StraightIff | tmp.py:67-88 | a hand is a straight exactly when no rank repeats and its indices are consecutive integers under the ace-high or the ace-low table |
| Hands.RunUnder | tmp.py:83-87 | one pass of the loop: sort the indices under one table and test `indices[j-i] == j`; RunUnderIffInterval states it holds exactly for an interval |
| Hands.RunUnderIffInterval | tmp.py:84-87 | the run check on one table holds exactly when the indices form an interval |
| Hands.RunUnderIsInterval | tmp.py:84-87 | a passing run check means the indices are the interval from the first sorted index |
| Hands.IntervalIsRunUnder | tmp.py:84-87 | indices forming an interval pass the run check |
| Hands.RunIsInterval | tmp.py:85-86 | an ascending listing that steps by one lists an interval |
| Hands.IntervalIsRun | tmp.py:85-86 | an ascending listing of an interval steps by one |
| Hands.StraightFromInterval | tmp.py:83-87 | distinct ranks whose indices form an interval under either table make a straight |
| Hands.WheelIsStraight | tmp.py:71-72 | A-2-3-4-5, in any suits, is a straight |
| Hands.BroadwayIsStraight | tmp.py:73-74 | A-K-Q-J-10, in any suits, is a straight |
| Hands.GapIsNotStraight | tmp.py:75-76 | A-K-Q-J-9 is not a straight |
| Hands.PairIsNotStraight | tmp.py:77-78 | A-K-Q-J-J is not a straight |
| Hands.WrapIsNotStraight | tmp.py:83-87 | Q-K-A-2-3 does not wrap around the ace, so it is not a straight |
| Hands.StraightAsWritten | tmp.py:80-88 | the code as written answers False exactly when a rank repeats; for every other hand it raises (None) |
| Hands.StraightAsWrittenFailsOnWheel | tmp.py:71-72 | the wheel, which the example expects to be a straight, raises under the code as written and is a straight under the corrected model |
| Hands.StraightAgreesWhereSourceAnswers | tmp.py:80-82 | wherever the code as written answers, the corrected model gives the same answer |
| AceResolver.AceVals | tmp.py:18 | the default ace values, low then high |
| AceResolver.Unresolved | tmp.py:55 | the cards still to resolve (`todo`); ResolvedSplit states that it and Resolved split the hand |
| AceResolver.Resolved | tmp.py:56 | the valued cards (`done`); ResolvedSplit states the split |
| AceResolver.ResolvedSplit | tmp.py:55-58 | `todo` and `done` partition the hand, and `todo` is empty exactly when every card has a value |
| AceResolver.ReplaceAce | tmp.py:62-63 | `done \| (todo - {card} \| {reifcard})`; ReplaceAceStep states what it moves from `todo` to `done` |
| AceResolver.ReplaceAceStep | tmp.py:62-63 | one recursive step turns one indeterminate ace into a valued card and leaves one fewer to resolve |
| AceResolver.AceSuitsStep | tmp.py:62-63 | that step removes exactly the resolved ace's suit from the suits still to resolve |
| AceResolver.ReplaceAceKeepsDistinct | tmp.py:62-63 | that step keeps a hand without card-equal repeats, and the new ace was not already in it |
| AceResolver.ReifyAces | tmp.py:55-64 | with no indeterminate ace the only hand yielded is the input; every yielded hand is fully valued and keeps the input's valued cards |
| AceResolver.ReifyWith | tmp.py:60-64 | the hands yielded after fixing one ace are fully valued and contain that ace's new card |
| AceResolver.ReifyAcesExactly | tmp.py:55-64 | the generator yields a hand exactly when it is a reification: the valued cards plus one ace of each indeterminate ace's suit, valued from acevals |
| AceResolver.ReifiedFromStep | tmp.py:60-64 | every hand yielded after fixing an ace to a value is a reification |
| AceResolver.StepFromReified | tmp.py:60-64 | every reification that gives an ace a value is yielded after fixing that ace to that value |
| AceResolver.AssignmentsExactly | tmp.py:60-63 | the suit-by-suit enumeration lists a set exactly when it gives each suit one ace valued from acevals |
| AceResolver.EnumeratedIsAssignment | tmp.py:60-63 | every enumerated set is such an assignment |
| AceResolver.AssignmentIsEnumerated | tmp.py:60-63 | every such assignment is enumerated |
| AceResolver.AddSuit | tmp.py:62-63 | an assignment for some suits, plus an ace of one further suit, is an assignment for all of them |
| AceResolver.RemoveSuit | tmp.py:62-63 | removing one suit's ace from an assignment leaves an assignment for the other suits |
| AceResolver.AssignmentSize | tmp.py:62-63 | an assignment holds one card per suit |
| AceResolver.AssignmentsCount | tmp.py:60-61 | there are \|acevals\| to the power \|suits\| assignments |
| AceResolver.AceSuitsCard | tmp.py:55 | each indeterminate ace of a hand has its own suit, so there are as many ace suits as indeterminate aces |
| AceResolver.AssignmentIsNew | tmp.py:63 | the aces an assignment adds are not among the hand's valued cards |
| AceResolver.ReifiedHandSize | tmp.py:63-64 | every yielded hand has as many cards as the input |
| AceResolver.ReifyAcesAreJoins | tmp.py:55-64 | the yielded hands are exactly the valued cards joined with each assignment |
| AceResolver.JoinsCount | tmp.py:55-64 | those joins are as many as the assignments |
| AceResolver.ReifyAcesCount | tmp.py:31-45 | with k indeterminate aces and distinct values the generator yields \|acevals\|^k distinct hands (4 for two aces) |
| AceResolver.ReificationsExactly | tmp.py:25-44 | a family of 2^k reifications is exactly what the generator yields |
| AceResolver.OneAceExample | tmp.py:20-29 | the ace of hearts with the 4 of clubs yields exactly the low-ace and the high-ace hands |
| AceResolver.TwoAcesReification | tmp.py:31-45 | two aces of different suits, valued independently, form a reification |
| AceResolver.FourCombinationsCount | tmp.py:40-44 | the four low/high combinations are four distinct hands, 2^2 |
| AceResolver.FourCombinationsAreReifications | tmp.py:40-44 | each combination is a reification |
| AceResolver.TwoAcesExample | tmp.py:31-45 | two indeterminate aces of different suits yield exactly the four combinations; this is the evident intent of the example, which as written names `ace1`/`ace2` (tmp.py:36-39) where it bound `a1, a2` (tmp.py:33) |
| AceResolver.CardEqualAcesMerge | tmp.py:62-64 | a low and an indeterminate ace of one suit can come out as a single card, when the second ace takes the low value |
| AceResolver.NoAcesExample | tmp.py:47-52 | a hand without indeterminate aces is yielded once, unchanged |
| Poker.Plain | poker.py:13-19 | forgetting a card's ace value keeps it card-equal and at the same place in the order, and keeps non-aces unchanged |
| Poker.CardEqIffSamePlain | cards.py:36 | two cards are equal as cards exactly when they agree once ace values are forgotten |
| Poker.PlainsCard | poker.py:22-25 | forgetting ace values keeps the number of cards when no two are card-equal |
| Poker.PlainsAreDistinct | poker.py:24 | cards with ace values forgotten are never card-equal repeats |
| Poker.PlainIsIdempotent | poker.py:24 | forgetting ace values twice is forgetting them once |
| Poker.ReplaceRank | poker.py:8-19 | cards with a rank outside from_ are kept; cards with a rank in from_ reappear with rank to in their suit; nothing else appears; the result is never larger |
| Poker.ReplaceRankById | poker.py:19 | replace_rank with membership read by rank id, as cards.py:21 defines rank equality |
| Poker.ReplaceRankReadingsAgree | poker.py:19 | the id reading and the value reading agree when every ace that `from_` does not list already has rank `to` |
| Poker.ReplaceRankCallSitesAgree | poker.py:13-24 | at all three calls of replace_rank in poker.py the two readings give the same set |
| Poker.ReplaceRankReadingsDiffer | poker.py:19 | off those calls they differ: a low ace with `from_` holding only the high ace is kept by value, lowered by id |
| Poker.LoweringIsPlain | poker.py:13 | replacing low and high aces with the indeterminate ace forgets ace values |
| Poker.Raise | poker.py:22 | raising an ace keeps the card's plain form and its place in the order |
| Poker.RaisingIsRaise | poker.py:22 | replacing indeterminate and low aces with the high ace raises every card |
| Poker.LoweringHighIsPlain | poker.py:24 | lowering only high aces forgets ace values when all aces are high |
| Poker.RaiseThenLowerIsPlain | poker.py:22-24 | raising then lowering forgets ace values |
| Poker.RaiseThenLowerRestores | poker.py:22-24 | raising then lowering gives back a hand of indeterminate aces unchanged |
| Poker.LoweringUndoesReification | poker.py:11-19 | replace_rank setting low and high aces back to the indeterminate ace (the arguments of poker.py:13) undoes reify_aces on a hand of indeterminate aces |
| Poker.PlainHandCardIsLowered | poker.py:19 | each card of the original hand is the lowered form of a card of any reification |
| Poker.LoweredCardIsInHand | poker.py:19 | the lowered form of each card of a reification is in the original hand |
| Poker.ReplaceRankExample | poker.py:11-16 | the low ace of hearts and the high ace of spades lower to the plain aces of hearts and spades |
| Poker.MaxCard | poker.py:23 | the greatest card of a set without card-equal repeats is above every other card |
| Poker.NLargest | poker.py:23 | nlargest picks min(n, size) cards, none if n is not positive, each above every card left out |
| Poker.RaisedFacts | poker.py:22 | raised cards have no card-equal repeats and are as many as the plain input cards |
| Poker.TopOfRaised | poker.py:22-24 | the lowered top raised cards are plain input cards above every input card they leave out |
| Poker.HighestN | poker.py:21-25 | highestn returns min(n, number of distinct plain cards) plain input cards, aces indeterminate, each above every input card left out |
| Poker.TopsAreNested | poker.py:21-25 | of two such top sets, one contains the other |
| Poker.HighestNUnique | poker.py:21-25 | those properties determine highestn's result uniquely |
| Poker.CountSuit | poker.py:36 | a suit is counted at most once per card |
| Poker.CountSuitZero | poker.py:36 | a suit is counted zero times exactly when no card has it |
| Poker.CountsAddUp | poker.py:36 | the four suit counts add up to the number of cards |
| Poker.OfSuit | poker.py:38 | the set `matching` of cards of one suit; OfSuitCons and CountSuitOfDistinct relate it to the count |
| Poker.OfSuitCons | poker.py:38 | the cards of a suit are the head, when it has the suit, plus those of the tail |
| Poker.CountSuitOfDistinct | poker.py:36-38 | without repeated cards, a suit's count is the number of its matching cards |
| Poker.MaxCount | poker.py:37 | the largest count is reached by some suit and no suit exceeds it |
| Poker.MaxCountAppears | poker.py:37 | some card of a non-empty hand has a suit of the largest count |
| Poker.FirstWithCount | poker.py:37 | the first position from i whose suit reaches count m |
| Poker.MostCommonSuit | poker.py:36-37 | the chosen suit appears in the hand, has the largest count, and among suits of that count was seen first |
| Poker.FirstIsEarliest | poker.py:37 | the first card of a maximal suit comes no later than any card of an equally common suit |
| Poker.BestFlush | poker.py:27-43 | None exactly when every suit has fewer than n cards; otherwise the cards are of the most common suit, each card-equal to an input card, and above every same-suit input card they leave out |
| Poker.BestFlushExact | poker.py:41-42 | with exactly n cards in the most common suit, the best flush is all of them |
| Poker.BestFlushAbove | poker.py:39-40 | with more than n, it is the n highest of them |
| Poker.MostCommonBelow | poker.py:37-43 | the most common suit has fewer than n cards exactly when every suit does |
| Poker.BestOfMatching | poker.py:38-40 | the n highest of the matching cards share the suit, are card-equal to input cards, and beat the matching cards left out |
| Poker.AllOfMatching | poker.py:38-42 | all the matching cards share the suit and are input cards |
| Poker.BestFlushSize | poker.py:27-43 | from cards without repeats, a best flush has exactly n cards |
| Poker.HighestNOfMany | poker.py:39-40 | from more than n cards none equal as cards, highestn returns exactly n cards |
| Poker.BestFlushIsFlush | poker.py:36-42 | every listing of a best flush is a flush |
| Poker.CountSuitOfFlush | poker.py:36 | in a hand of one suit, that suit is counted once per card |
| Poker.FlushSuitIsMostCommon | poker.py:36-38 | in a hand of one suit, that suit is the most common and its cards are all the cards |
| Poker.BestFlushOfFlush | poker.py:41-42 | n cards of one suit are their own best n-card flush |
| Poker.ListedBestFlush | poker.py:27-43 | a listing without repeats of a best flush holds n cards of one suit |
| Poker.BestFlushIdempotent | poker.py:27-43 | the best flush of a best flush is itself |
| Poker.RoyalIsTop | poker.py:31-32 | the royal flush lies above the 9 and 8 of its suit |
| Poker.RoyalIsHighest | poker.py:31-34 | the five highest of the royal flush with its 9 and 8 are the royal flush |
| Poker.RoyalFlushExample | poker.py:31-34 | the best 5-card flush from the royal flush with its 9 and 8 is the royal flush |
| Poker.NoFlushExample | poker.py:43 | five cards spread over four suits give no 5-card flush |

## Left out

- Default arguments are passed explicitly: `n=5` (poker.py:21, :27), `acevals=Rank.ACE_VALS` (tmp.py:18) and
  `from_=(rAno, rAlo), to=rAhi` (poker.py:8) are ordinary parameters, and every use in the model gives them.
- Display is not modelled: suit glyphs and colours (cards.py:7-11),
  `__str__`/`__repr__`, the NAME tables, and the module-namespace exports
  (cards.py:13, 27-29, 33-34, 40-41).
- `best_straight` and `best_hand` are commented out in the source and are not
  modelled.
- The doctest runners (`__main__` blocks) are not modelled.
- The randomness of `random.shuffle` is not modelled. The shuffle is the
  parameter `order`, any permutation of the 52 positions. The doctest
  `deck == another_deck  # False` is a probabilistic claim and is not stated.
- `reify_aces` is a generator. It may yield the same hand more than once, once
  per order in which the aces are picked. `ReifyAces` is the set of hands it
  yields; neither the order nor the repeats are modelled.
- `ReifyAces` takes the input as a set, as the examples do (`*hand` of a set).
  Two card-equal aces in a varargs tuple are outside the model.
- `Counter`'s internals are not modelled; only the count and first-seen
  tie-break that `most_common(1)` returns are. The same holds for
  `heapq.nlargest`: only its result as a set is modelled, since `highestn`
  passes it straight to `replace_rank`, which builds a set.
- The tmp.py rank class, with `.value`, `Rank.ACE_VALS`, `r_A_lo` and the like,
  is not part of this model. It is merged with cards.py's `Rank` into one
  datatype: the Ace carries `NoValue`, `Lo` or `Hi`.
- The source examples name particular suits. `WheelIsStraight`,
  `BroadwayIsStraight`, `TwoAcesExample` and `RoyalFlushExample` prove them
  for every choice of suits.
- Poker.BestFlushSize: requires input cards without repeats and without
  card-equal aces. With repeats, `Counter` counts duplicates that the set
  `matching` drops, and the result can be smaller than n.
- Poker.ReplaceRank: tests `c.rank in from_` by value (Dafny `==`, which
  tells the low, high and indeterminate Ace apart), not by the rank id that
  cards.py:21 compares. `Straight`, `RankEq` and `CardEq` read ranks by id.
  The id reading is `ReplaceRankById`; `ReplaceRankCallSitesAgree` proves the
  two agree at every call in poker.py, and `ReplaceRankReadingsDiffer` shows an
  input off those calls where they do not.
- AceResolver.ReifyAces: requires every ace value to have a value (low or
  high). With the indeterminate Ace among `acevals`, tmp.py:62-64 rebuilds the
  same hand and recurses on it without end (RecursionError); that input is
  outside the model.
- AceResolver.ReifiedHandSize: requires an input without card-equal aces, as
  do `ReifyAcesExactly` and the other reification lemmas. With a low and an
  indeterminate Ace of one suit, a yielded hand can be one card smaller than
  the input (`CardEqualAcesMerge`), in the source as in the model.
- AceResolver.ReifyAcesCount: requires distinct ace values and an input
  without card-equal aces. Otherwise different picks collide and fewer hands
  come out.

## Findings

| source | as written | input that shows it | evidently intended | confidence | as-written member | corrected member |
|---|---|---|---|---|---|---|
| tmp.py:84 | the index list is built from `rankids`, a name bound nowhere in the function or module, so every call that passes the repeated-rank test raises NameError | the wheel A-2-3-4-5 of the doctest at tmp.py:71-72, which expects True | the indices of the rank ids of `ranks` (tmp.py:80) | not executed | Hands.StraightAsWrittenFailsOnWheel | Hands.StraightIff |
