/** Optional values and facts about lists without repetitions. */
module Collections {
  datatype Option<T> = None | Some(value: T)

  function Max1(limit: nat): nat { if limit == 0 then 1 else limit }

  ghost predicate Distinct<T>(s: seq<T>) { forall i, j :: 0 <= i < j < |s| ==> s[i] != s[j] }

  function SetOf<T(==)>(s: seq<T>): set<T> { set x | x in s }

  lemma {:induction false} SetOfSize<T>(s: seq<T>)
    ensures |SetOf(s)| <= |s| && (Distinct(s) ==> |SetOf(s)| == |s|)
  {
    if s != [] {
      var rest, last := s[..|s| - 1], s[|s| - 1];
      SetOfSize(rest);
      assert s == rest + [last];
      assert SetOf(s) == SetOf(rest) + {last};
    }
  }

  lemma SubsetSize<T>(a: set<T>, b: set<T>)
    requires a <= b
    ensures |a| <= |b|
  {
    assert b == a + (b - a);
  }

  lemma DistinctConcat<T>(a: seq<T>, b: seq<T>)
    requires Distinct(a) && Distinct(b) && forall x :: x in b ==> x !in a
    ensures Distinct(a + b)
  {
    forall i, j | 0 <= i < j < |a + b|
      ensures (a + b)[i] != (a + b)[j]
    {
      if i < |a| <= j {
        assert a[i] in a && b[j - |a|] in b;
      }
    }
  }

  /** A list is duplicate-free exactly if nothing occurs in it twice. */
  lemma {:induction false} DistinctIsOnce<T(!new)>(s: seq<T>)
    ensures Distinct(s) <==> forall x :: multiset(s)[x] <= 1
  {
    if s != [] {
      var rest, last := s[..|s| - 1], s[|s| - 1];
      assert s == rest + [last];
      DistinctIsOnce(rest);
      if Distinct(rest) && last in rest {
        var i :| 0 <= i < |rest| && rest[i] == last;
        assert s[i] == s[|s| - 1];
        assert multiset(s)[last] >= 2;
      }
      assert forall x :: multiset(s)[x] == multiset(rest)[x] + if x == last then 1 else 0;
    }
  }
}
