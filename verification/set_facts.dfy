/** Generic facts about finite sets and sequences that the card model relies on:
    cardinality of an injective image, of a sequence without repeats, and the
    multiset of such a sequence. */
module SetFacts {

  /** No element occurs twice in `s`. */
  predicate NoDuplicates<T(==)>(s: seq<T>) {
    forall i, j | 0 <= i < j < |s| :: s[i] != s[j]
  }

  /** `f` never sends two different members of `a` to the same value. */
  ghost predicate InjectiveOn<T, U>(a: set<T>, f: T -> U) {
    forall x, y | x in a && y in a && f(x) == f(y) :: x == y
  }

  /** The values `f` takes on `a`. */
  ghost function Image<T, U>(a: set<T>, f: T -> U): set<U> {
    set x | x in a :: f(x)
  }

  /** The image of a finite set under a function that is injective on it has
      as many elements as the set. */
  lemma {:induction false} InjectiveImageCard<T, U>(a: set<T>, f: T -> U)
    requires InjectiveOn(a, f)
    ensures |Image(a, f)| == |a|
  {
    if a != {} {
      var x :| x in a;
      var rest := a - {x};
      InjectiveImageCard(rest, f);
      assert Image(a, f) == Image(rest, f) + {f(x)};
      assert f(x) !in Image(rest, f);
    }
  }

  /** A subset with as many elements as its superset is the superset. */
  lemma SubsetSameCard<T>(a: set<T>, b: set<T>)
    requires a <= b && |a| == |b|
    ensures a == b
  {
    assert a * b == a;
    assert a + b == b;
    assert |b - a| == 0;
  }

  /** A sequence without repeats has as many distinct elements as positions. */
  lemma {:induction false} DistinctSeqCard<T>(s: seq<T>)
    requires NoDuplicates(s)
    ensures |set x | x in s| == |s|
  {
    if s != [] {
      DistinctSeqCard(s[1..]);
      assert (set x | x in s) == (set x | x in s[1..]) + {s[0]};
      assert s[0] !in s[1..];
    }
  }

  /** A sequence with a repeated element has fewer distinct elements than positions. */
  lemma {:induction false} RepeatedSeqCard<T>(s: seq<T>, i: nat, j: nat)
    requires i < j < |s| && s[i] == s[j]
    ensures |set x | x in s| < |s|
  {
    if i == 0 {
      SeqSetCardBound(s[1..]);
      assert s[0] in s[1..];
      assert (set x | x in s) == (set x | x in s[1..]);
    } else {
      RepeatedSeqCard(s[1..], i - 1, j - 1);
      assert (set x | x in s) == (set x | x in s[1..]) + {s[0]};
    }
  }

  /** A sequence never has more distinct elements than positions. */
  lemma {:induction false} SeqSetCardBound<T>(s: seq<T>)
    ensures |set x | x in s| <= |s|
  {
    if s != [] {
      SeqSetCardBound(s[1..]);
      assert (set x | x in s) == (set x | x in s[1..]) + {s[0]};
    }
  }

  /** In a sequence without repeats every element occurs exactly once. */
  lemma {:induction false} DistinctSeqMultiplicity<T>(s: seq<T>, x: T)
    requires NoDuplicates(s)
    ensures multiset(s)[x] == if x in s then 1 else 0
  {
    if s != [] {
      assert s == [s[0]] + s[1..];
      DistinctSeqMultiplicity(s[1..], x);
    }
  }

  /** Two sequences without repeats over the same elements are permutations of each other. */
  lemma SameSetSameMultiset<T>(s: seq<T>, t: seq<T>)
    requires NoDuplicates(s) && NoDuplicates(t)
    requires forall x :: x in s <==> x in t
    ensures multiset(s) == multiset(t)
  {
    forall x ensures multiset(s)[x] == multiset(t)[x] {
      DistinctSeqMultiplicity(s, x);
      DistinctSeqMultiplicity(t, x);
    }
  }

  /** The tail of a sequence without repeats has no repeats and lacks the head. */
  lemma DistinctTail<T>(s: seq<T>)
    requires NoDuplicates(s) && s != []
    ensures NoDuplicates(s[1..]) && s[0] !in s[1..]
    ensures forall x :: x in s <==> x == s[0] || x in s[1..]
  {
    var rest := s[1..];
    forall i, j | 0 <= i < j < |rest| ensures rest[i] != rest[j] {
      assert rest[i] == s[i + 1] && rest[j] == s[j + 1];
    }
    forall i | 0 <= i < |rest| ensures rest[i] != s[0] {
      assert rest[i] == s[i + 1];
    }
    assert s == [s[0]] + rest;
  }

  /** A subset never has more elements than its superset. */
  lemma SubsetCard<T>(a: set<T>, b: set<T>)
    requires a <= b
    ensures |a| <= |b|
  {
    assert b == a + (b - a);
    assert a * (b - a) == {};
  }

  /** Some element of a non-empty set. */
  ghost function Pick<T>(s: set<T>): (y: T)
    requires s != {}
    ensures y in s
  {
    var y :| y in s;
    y
  }

  /** An image never has more elements than the set it is taken of. */
  lemma {:induction false} ImageCardBound<T, U>(a: set<T>, f: T -> U)
    ensures |Image(a, f)| <= |a|
  {
    if a != {} {
      var x := Pick(a);
      ImageCardBound(a - {x}, f);
      assert Image(a, f) == Image(a - {x}, f) + {f(x)};
    }
  }
}
