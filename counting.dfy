/** Counting facts about sequences, sets and multisets that the game's
    deck and score invariants rest on. */
module Counting {

  /** No element occurs twice in `s`. */
  predicate Distinct<T(==)>(s: seq<T>) {
    forall i, j :: 0 <= i < j < |s| ==> s[i] != s[j]
  }

  /** The set of elements of `s`. */
  function Elements<T>(s: seq<T>): set<T> {
    set x | x in s
  }

  /** The set of elements that occur in `ms` at least once. */
  function Support<T>(ms: multiset<T>): set<T> {
    set x | x in ms
  }

  /** A sequence without repetitions has as many elements as its set. */
  lemma {:induction false} DistinctSize<T>(s: seq<T>)
    requires Distinct(s)
    ensures |Elements(s)| == |s|
  {
    if s != [] {
      var rest := s[1..];
      assert Distinct(rest) by {
        forall i, j | 0 <= i < j < |rest| ensures rest[i] != rest[j] {
          assert rest[i] == s[i + 1] && rest[j] == s[j + 1];
        }
      }
      DistinctSize(rest);
      assert s[0] !in Elements(rest) by {
        forall k | 0 <= k < |rest| ensures rest[k] != s[0] {
          assert rest[k] == s[k + 1];
        }
      }
      assert Elements(s) == Elements(rest) + {s[0]} by {
        assert s == [s[0]] + rest;
      }
    }
  }

  /** A subset is no larger than its superset, and a subset as large as its
      superset is the whole superset. */
  lemma SubsetSize<T>(a: set<T>, b: set<T>)
    requires a <= b
    ensures |a| <= |b|
    ensures |a| == |b| ==> a == b
  {
    var extra := b - a;
    assert b == a + extra;
    assert a * extra == {};
    assert |b| == |a| + |extra|;
    if |extra| == 0 {
      assert extra == {};
    }
  }

  /** A multiset in which every element occurs exactly twice is twice as
      large as its support. */
  lemma {:induction false} DoubledSize<T>(ms: multiset<T>)
    requires forall x :: x in ms ==> ms[x] == 2
    ensures |ms| == 2 * |Support(ms)|
    decreases |ms|
  {
    if ms == multiset{} {
      assert Support(ms) == {};
    } else {
      var x :| x in ms;
      var pair := multiset{x, x};
      var rest := ms - pair;
      assert ms == rest + pair;
      assert x !in rest;
      forall y | y in rest ensures rest[y] == 2 {
        assert y != x;
      }
      DoubledSize(rest);
      assert Support(ms) == Support(rest) + {x};
    }
  }
}
