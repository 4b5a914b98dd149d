/** Generic facts about sequences used by the grouping engine and the listing. */
module Seqs {

  /** No element occurs twice. */
  predicate Distinct<T(==)>(s: seq<T>)
  {
    forall a, b :: 0 <= a < b < |s| ==> s[a] != s[b]
  }

  /** A sequence is duplicate-free exactly when each of its elements occurs once. */
  lemma {:induction false} DistinctIffOnce<T>(s: seq<T>)
    ensures Distinct(s) <==> forall x :: multiset(s)[x] == (if x in s then 1 else 0)
  {
    if |s| > 0 {
      var h, t := s[0], s[1..];
      assert s == [h] + t;
      DistinctIffOnce(t);
      if Distinct(s) {
        assert h !in t;
        assert Distinct(t) by {
          forall a, b | 0 <= a < b < |t| ensures t[a] != t[b] {
            assert s[a + 1] != s[b + 1];
          }
        }
      }
      if forall x :: multiset(s)[x] == (if x in s then 1 else 0) {
        assert multiset(t)[h] == 0 by {
          assert multiset(s)[h] == 1;
        }
        assert forall x :: multiset(t)[x] == (if x in t then 1 else 0) by {
          forall x ensures multiset(t)[x] == (if x in t then 1 else 0) {
            assert multiset(s)[x] == (if x in s then 1 else 0);
          }
        }
        forall a, b | 0 <= a < b < |s| ensures s[a] != s[b] {
          if a == 0 {
            assert s[b] == t[b - 1];
          } else {
            assert s[a] == t[a - 1] && s[b] == t[b - 1];
          }
        }
      }
    }
  }

  /** Concatenation of a sequence of sequences, in order. */
  function Flatten<T>(gs: seq<seq<T>>): seq<T>
  {
    if |gs| == 0 then [] else gs[0] + Flatten(gs[1..])
  }

  lemma {:induction false} FlattenAppend<T>(a: seq<seq<T>>, b: seq<seq<T>>)
    ensures Flatten(a + b) == Flatten(a) + Flatten(b)
  {
    if |a| > 0 {
      assert (a + b)[1..] == a[1..] + b;
      FlattenAppend(a[1..], b);
    } else {
      assert a + b == b;
    }
  }

  /** An element is in the flattening exactly when it is in one of the parts. */
  lemma {:induction false} InFlatten<T>(gs: seq<seq<T>>, x: T)
    ensures x in Flatten(gs) <==> exists m :: 0 <= m < |gs| && x in gs[m]
  {
    if |gs| > 0 {
      InFlatten(gs[1..], x);
      if x in Flatten(gs[1..]) {
        var m :| 0 <= m < |gs| - 1 && x in gs[1..][m];
        assert x in gs[m + 1];
      }
      if exists m :: 0 <= m < |gs| && x in gs[m] {
        var m :| 0 <= m < |gs| && x in gs[m];
        if m > 0 {
          assert x in gs[1..][m - 1];
        }
      }
    }
  }

  /** A permutation of a duplicate-free sequence is duplicate-free. */
  lemma DistinctPermutation<T>(s: seq<T>, t: seq<T>)
    requires multiset(s) == multiset(t) && Distinct(t)
    ensures Distinct(s)
  {
    DistinctIffOnce(t);
    DistinctIffOnce(s);
    forall x ensures multiset(s)[x] == (if x in s then 1 else 0) {
      assert x in s <==> x in multiset(s);
      assert x in t <==> x in multiset(t);
    }
  }
}
