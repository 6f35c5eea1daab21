/** Ordered containers: enumerating a set in the order of a total preorder. */
module Ordering {
  ghost predicate TotalOn<T(!new)>(s: set<T>, le: (T, T) -> bool)
  {
    && (forall a, b :: a in s && b in s ==> le(a, b) || le(b, a))
    && (forall a, b, c :: a in s && b in s && c in s && le(a, b) && le(b, c) ==> le(a, c))
  }

  /** The sequence lists every element of the set exactly once, smaller ones first. */
  ghost predicate Enumerates<T(!new)>(order: seq<T>, s: set<T>, le: (T, T) -> bool)
  {
    && (forall x :: x in order <==> x in s)
    && (forall i, j :: 0 <= i < j < |order| ==> order[i] != order[j] && le(order[i], order[j]))
  }

  ghost predicate Least<T>(x: T, s: set<T>, le: (T, T) -> bool)
  {
    x in s && forall y :: y in s ==> le(x, y)
  }

  lemma {:induction false} LeastExists<T(!new)>(s: set<T>, le: (T, T) -> bool) returns (x: T)
    requires s != {} && TotalOn(s, le)
    ensures Least(x, s, le)
  {
    var a :| a in s;
    var rest := s - {a};
    x := a;
    assert forall y :: y in s ==> y == a || y in rest;
    assert le(a, a);
    if rest != {} {
      var b := LeastExists(rest, le);
      if !le(a, b) { x := b; }
    }
  }

  /** Iteration over an ordered index. Elements that compare equal come in any order. */
  method InOrder<T(!new,==)>(s: set<T>, le: (T, T) -> bool) returns (order: seq<T>)
    requires TotalOn(s, le)
    ensures Enumerates(order, s, le)
  {
    order := [];
    var rest := s;
    while rest != {}
      invariant rest <= s
      invariant forall x :: x in order <==> x in s && x !in rest
      invariant forall x, y :: x in order && y in rest ==> le(x, y)
      invariant forall i, j :: 0 <= i < j < |order| ==> order[i] != order[j] && le(order[i], order[j])
      decreases rest
    {
      ghost var least := LeastExists(rest, le);
      assert exists x :: x in rest && forall y :: y in rest ==> le(x, y);
      var x :| x in rest && forall y :: y in rest ==> le(x, y);
      order := order + [x];
      rest := rest - {x};
    }
  }

  lemma {:induction false} EnumerationExists<T(!new)>(s: set<T>, le: (T, T) -> bool) returns (order: seq<T>)
    requires TotalOn(s, le)
    ensures Enumerates(order, s, le)
    decreases |s|
  {
    order := [];
    if s != {} {
      var x := LeastExists(s, le);
      var rest := EnumerationExists(s - {x}, le);
      order := [x] + rest;
      assert forall i :: 0 < i < |order| ==> order[i] == rest[i - 1] && order[i] in rest;
    }
  }
}
