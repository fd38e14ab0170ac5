/** Facts about finite sequences shared by both scripts. */
module Seqs {

  /** No value occurs twice in `s`. */
  ghost predicate Distinct<T>(s: seq<T>) {
    forall a, b :: 0 <= a < b < |s| ==> s[a] != s[b]
  }

  /** `xs` can be obtained from `ys` by deleting elements, keeping the order. */
  ghost predicate IsSubsequence<T>(xs: seq<T>, ys: seq<T>)
    decreases |ys|
  {
    if xs == [] then true
    else if ys == [] then false
    else if xs[0] == ys[0] then IsSubsequence(xs[1..], ys[1..])
    else IsSubsequence(xs, ys[1..])
  }

  /** Python's `[x] * n`. */
  function Repeat<T>(x: T, n: nat): (r: seq<T>)
    ensures |r| == n
    ensures forall i :: 0 <= i < n ==> r[i] == x
  {
    if n == 0 then [] else [x] + Repeat(x, n - 1)
  }

  /** The set of values of `s`. */
  function Elements<T>(s: seq<T>): set<T> {
    set k | 0 <= k < |s| :: s[k]
  }

  lemma ElementsSnoc<T>(s: seq<T>)
    requires s != []
    ensures Elements(s) == Elements(s[..|s| - 1]) + {s[|s| - 1]}
  {
    var p := s[..|s| - 1];
    forall x | x in Elements(s) ensures x in Elements(p) + {s[|s| - 1]} {
      var k :| 0 <= k < |s| && s[k] == x;
      if k < |p| { assert p[k] == x; }
    }
    forall x | x in Elements(p) ensures x in Elements(s) {
      var k :| 0 <= k < |p| && p[k] == x;
      assert s[k] == x;
    }
  }

  /** A sequence without duplicates has as many elements as its set of values. */
  lemma {:induction false} DistinctCardinality<T>(s: seq<T>)
    requires Distinct(s)
    ensures |Elements(s)| == |s|
  {
    if s != [] {
      var p := s[..|s| - 1];
      assert Distinct(p);
      DistinctCardinality(p);
      ElementsSnoc(s);
      assert s[|s| - 1] !in Elements(p);
    }
  }

  /** No value occurs twice exactly when every value occurs at most once. */
  lemma {:induction false} DistinctMultiset<T>(s: seq<T>)
    ensures Distinct(s) <==> forall x :: multiset(s)[x] <= 1
  {
    if s != [] {
      var t := s[1..];
      assert s == [s[0]] + t;
      DistinctMultiset(t);
      if Distinct(s) {
        assert Distinct(t);
        assert s[0] !in t;
      }
      if forall x :: multiset(s)[x] <= 1 {
        assert forall x :: multiset(t)[x] <= 1 by {
          forall x ensures multiset(t)[x] <= 1 {
            assert multiset(t)[x] <= multiset(s)[x];
          }
        }
        assert multiset(s)[s[0]] == 1 + multiset(t)[s[0]];
        forall a, b | 0 <= a < b < |s| ensures s[a] != s[b] {
          if a == 0 {
            assert s[b] == t[b - 1];
          } else {
            assert s[a] == t[a - 1] && s[b] == t[b - 1];
          }
        }
      }
    }
  }

  /** Every sequence is a subsequence of itself. */
  lemma {:induction false} SubsequenceRefl<T>(s: seq<T>)
    ensures IsSubsequence(s, s)
    decreases |s|
  {
    if s != [] {
      SubsequenceRefl(s[1..]);
    }
  }
}
