/** Sequences as listings of sets. */
module Sequences {

  ghost predicate Distinct<T(!new)>(s: seq<T>) {
    forall i, j :: 0 <= i < j < |s| ==> s[i] != s[j]
  }

  function Members<T(==)>(s: seq<T>): set<T> {
    set x | x in s
  }

  lemma MembersLast<T>(s: seq<T>)
    requires s != []
    ensures Members(s) == Members(s[..|s| - 1]) + {s[|s| - 1]}
  {
  }

  lemma DistinctConcat<T(!new)>(s: seq<T>, t: seq<T>)
    requires Distinct(s) && Distinct(t) && forall x :: x in t ==> x !in s
    ensures Distinct(s + t)
  {
    forall i, j | 0 <= i < j < |s + t| ensures (s + t)[i] != (s + t)[j] {
      if i < |s| <= j {
        assert (s + t)[i] in s && (s + t)[j] in t;
      }
    }
  }

  lemma {:induction false} DistinctSize<T(!new)>(s: seq<T>)
    requires Distinct(s)
    ensures |s| == |Members(s)|
  {
    if s == [] {
      assert Members(s) == {};
    } else {
      DistinctSize(s[..|s| - 1]);
      MembersLast(s);
    }
  }

  lemma {:induction false} DistinctCount<T(!new)>(s: seq<T>, x: T)
    requires Distinct(s)
    ensures multiset(s)[x] == if x in s then 1 else 0
  {
    if s != [] {
      var n := |s| - 1;
      assert s == s[..n] + [s[n]];
      DistinctCount(s[..n], x);
    }
  }

  lemma DistinctIsSubmultiset<T(!new)>(s: seq<T>, t: seq<T>)
    requires Distinct(s)
    requires forall x :: x in s ==> x in t
    ensures multiset(s) <= multiset(t)
    ensures |s| <= |t|
  {
    forall x ensures multiset(s)[x] <= multiset(t)[x] {
      DistinctCount(s, x);
      assert x in t <==> x in multiset(t);
    }
    assert multiset(s) + (multiset(t) - multiset(s)) == multiset(t);
    assert |multiset(t)| == |multiset(s)| + |multiset(t) - multiset(s)|;
  }
}
