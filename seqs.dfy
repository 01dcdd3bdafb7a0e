/** Sequences without repeats, and why a permutation keeps that property. */
module Seqs {

  /** No value occurs twice in s. */
  ghost predicate Distinct<T>(s: seq<T>)
  {
    forall p, q :: 0 <= p < q < |s| ==> s[p] != s[q]
  }

  /** A permutation of a list without repeats has no repeats either. */
  lemma PermutationDistinct<T>(s: seq<T>, t: seq<T>)
    requires multiset(s) == multiset(t) && Distinct(s)
    ensures Distinct(t)
  {
    forall p, q | 0 <= p < q < |t|
      ensures t[p] != t[q]
    {
      if t[p] == t[q] {
        var x := t[p];
        assert multiset(t)[x] >= 2 by {
          assert t == t[..q] + [t[q]] + t[q + 1..];
          assert x in t[..q];
        }
        DistinctCount(s, x);
      }
    }
  }

  lemma {:induction false} DistinctCount<T>(s: seq<T>, x: T)
    requires Distinct(s)
    ensures multiset(s)[x] <= 1
  {
    if s != [] {
      var r := s[1..];
      assert s == [s[0]] + r;
      assert Distinct(r) by {
        forall p, q | 0 <= p < q < |r| ensures r[p] != r[q] {
          assert r[p] == s[p + 1] && r[q] == s[q + 1];
        }
      }
      DistinctCount(r, x);
      if s[0] == x {
        assert x !in r by {
          forall k | 0 <= k < |r| ensures r[k] != x {
            assert r[k] == s[k + 1];
          }
        }
      }
    }
  }
}
