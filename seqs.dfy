/** Facts about sequences without repeated elements, the model's picture of
    the iteration order of a Python set or frozenset. */
module Seqs {

  /** No element occurs twice. */
  ghost predicate NoDup<T>(s: seq<T>) {
    forall i, j :: 0 <= i < j < |s| ==> s[i] != s[j]
  }

  /** `order` lists the elements of `s`, each exactly once. */
  ghost predicate Enumerates<T(!new)>(order: seq<T>, s: set<T>) {
    NoDup(order) && forall x :: x in order <==> x in s
  }

  /** A duplicate-free sequence is as long as the set of its elements. */
  lemma {:induction false} NoDupCard<T>(s: seq<T>)
    requires NoDup(s)
    ensures |set x | x in s| == |s|
  {
    if s != [] {
      var tail := s[1..];
      assert NoDup(tail) by {
        forall i, j | 0 <= i < j < |tail| ensures tail[i] != tail[j] {
          assert tail[i] == s[i + 1] && tail[j] == s[j + 1];
        }
      }
      NoDupCard(tail);
      assert s[0] !in tail by {
        forall i | 0 <= i < |tail| ensures tail[i] != s[0] {
          assert tail[i] == s[i + 1];
        }
      }
      assert (set x | x in s) == (set x | x in tail) + {s[0]} by {
        forall x ensures x in s <==> x in tail || x == s[0] {
          assert s == [s[0]] + tail;
        }
      }
    }
  }

  /** An enumeration of a set is as long as the set. */
  lemma EnumerationCard<T(!new)>(order: seq<T>, s: set<T>)
    requires Enumerates(order, s)
    ensures |order| == |s|
  {
    NoDupCard(order);
    assert (set x | x in order) == s;
  }

  /** A duplicate-free sequence of a single element is that element alone. */
  lemma Singleton<T>(s: seq<T>, x: T)
    requires NoDup(s) && forall y :: y in s <==> y == x
    ensures s == [x]
  {
    NoDupCard(s);
    assert (set y | y in s) == {x};
  }

  /** Some element of a non-empty set: the next element a loop over a Python
      set visits, in an order the model leaves open. */
  method Pick<T>(s: set<T>) returns (x: T)
    requires s != {}
    ensures x in s
  {
    x :| x in s;
  }
}
