/** Sequence helpers: `flatten` of nested rows and the "all distinct"
    property of what an iterator yields. */
module Seqs {

  /** No element occurs twice. */
  ghost predicate Distinct<T>(s: seq<T>) {
    forall i, j :: 0 <= i < j < |s| ==> s[i] != s[j]
  }

  /** `Iterator::flatten` over a sequence of rows. */
  function Concat<T>(ss: seq<seq<T>>): seq<T> {
    if ss == [] then [] else ss[0] + Concat(ss[1..])
  }

  lemma {:induction false} ConcatAppend<T>(ss: seq<seq<T>>, last: seq<T>)
    ensures Concat(ss + [last]) == Concat(ss) + last
  {
    if ss == [] {
      assert [] + [last] == [last];
    } else {
      assert (ss + [last])[1..] == ss[1..] + [last];
      ConcatAppend(ss[1..], last);
    }
  }

  /** A sequence without repetitions has as many elements as its set. */
  lemma {:induction false} DistinctCard<T>(s: seq<T>)
    requires Distinct(s)
    ensures |set x | x in s| == |s|
  {
    if s != [] {
      var tail := s[1..];
      assert Distinct(tail) by {
        forall i, j | 0 <= i < j < |tail| ensures tail[i] != tail[j] {
          assert tail[i] == s[i + 1] && tail[j] == s[j + 1];
        }
      }
      DistinctCard(tail);
      assert s[0] !in tail by {
        forall k | 0 <= k < |tail| ensures tail[k] != s[0] {
          assert tail[k] == s[k + 1];
        }
      }
      assert (set x | x in s) == (set x | x in tail) + {s[0]} by {
        assert s == [s[0]] + tail;
      }
    }
  }

  /** Two repetition-free sequences with the same elements have the same length. */
  lemma SameElementsSameLength<T>(a: seq<T>, b: seq<T>)
    requires Distinct(a) && Distinct(b)
    requires forall x :: x in a <==> x in b
    ensures |a| == |b|
  {
    DistinctCard(a);
    DistinctCard(b);
    assert (set x | x in a) == (set x | x in b);
  }
}
