/** Closing a list of schemas under dependency: a worklist over a graph that may be cyclic. */
module Schema {
  import opened Collections

  type Id = nat

  /** The schemas there are, each with the dependencies it lists. */
  type Graph = map<Id, seq<Id>>

  /** Every schema on the list, and every dependency of a schema, is in the graph. */
  ghost predicate Closed(g: Graph) { forall id, d :: id in g && d in g[id] ==> d in g }

  ghost predicate AllIn(g: Graph, ids: seq<Id>) { forall id :: id in ids ==> id in g }

  // ---------- reachability ----------

  ghost predicate IsEdge(g: Graph, id: Id, dep: Id) { id in g && dep in g[id] }

  ghost predicate IsPath(g: Graph, path: seq<Id>)
  {
    path != [] && forall i :: 0 <= i < |path| - 1 ==> IsEdge(g, path[i], path[i + 1])
  }

  ghost predicate Reachable(g: Graph, roots: seq<Id>, id: Id)
  {
    exists path :: IsPath(g, path) && path[0] in roots && path[|path| - 1] == id
  }

  lemma RootIsReachable(g: Graph, roots: seq<Id>, id: Id)
    requires id in roots
    ensures Reachable(g, roots, id)
  {
    assert IsPath(g, [id]);
  }

  lemma DependencyIsReachable(g: Graph, roots: seq<Id>, id: Id, dep: Id)
    requires Reachable(g, roots, id) && id in g && dep in g[id]
    ensures Reachable(g, roots, dep)
  {
    var path :| IsPath(g, path) && path[0] in roots && path[|path| - 1] == id;
    var longer := path + [dep];
    assert forall i :: 0 <= i < |path| ==> longer[i] == path[i];
    assert IsPath(g, longer);
  }

  /** A set that holds the roots and is closed under dependency holds everything reachable. */
  lemma {:induction false} ClosedHoldsPath(g: Graph, ids: seq<Id>, path: seq<Id>)
    requires IsPath(g, path) && path[0] in ids
    requires forall id, d :: id in ids && id in g && d in g[id] ==> d in ids
    ensures path[|path| - 1] in ids
  {
    if |path| > 1 {
      var front := path[..|path| - 1];
      assert forall i :: 0 <= i < |front| ==> front[i] == path[i];
      assert IsPath(g, front) && front[0] == path[0];
      ClosedHoldsPath(g, ids, front);
      assert IsEdge(g, path[|path| - 2], path[|path| - 1]);
    }
  }

  // ---------- first-discovery order ----------

  /** Keeps the first occurrence of each id that is not already seen. */
  function Dedup(ids: seq<Id>, seen: seq<Id>): seq<Id>
  {
    if ids == [] then seen
    else Dedup(ids[1..], if ids[0] in seen then seen else seen + [ids[0]])
  }

  function Deps(g: Graph, ids: seq<Id>): seq<Id>
  {
    if ids == [] then []
    else Deps(g, ids[..|ids| - 1]) + (if ids[|ids| - 1] in g then g[ids[|ids| - 1]] else [])
  }

  lemma {:induction false} DedupHas(ids: seq<Id>, seen: seq<Id>)
    requires Distinct(seen)
    ensures Distinct(Dedup(ids, seen)) && seen <= Dedup(ids, seen)
    ensures forall id :: id in Dedup(ids, seen) <==> id in seen || id in ids
  {
    if ids != [] {
      var seen' := if ids[0] in seen then seen else seen + [ids[0]];
      DedupHas(ids[1..], seen');
      assert ids == [ids[0]] + ids[1..];
    }
  }

  lemma {:induction false} DedupAppend(ids: seq<Id>, id: Id, seen: seq<Id>)
    ensures Dedup(ids + [id], seen) == var s := Dedup(ids, seen); if id in s then s else s + [id]
  {
    if ids == [] {
      assert ([id])[1..] == [];
    } else {
      assert (ids + [id])[1..] == ids[1..] + [id];
      DedupAppend(ids[1..], id, if ids[0] in seen then seen else seen + [ids[0]]);
    }
  }

  lemma {:induction false} DepsHas(g: Graph, ids: seq<Id>)
    ensures forall d :: d in Deps(g, ids) <==> exists id :: id in ids && id in g && d in g[id]
  {
    if ids != [] {
      var rest, last := ids[..|ids| - 1], ids[|ids| - 1];
      assert ids == rest + [last];
      DepsHas(g, rest);
    }
  }

  lemma DepsAppend(g: Graph, ids: seq<Id>, id: Id)
    requires id in g
    ensures Deps(g, ids + [id]) == Deps(g, ids) + g[id]
  {
  }

  /** First-discovery order: the list is what remains, after dropping repetitions, of the input followed by the
      dependencies of the listed schemas themselves, and lists nothing unreachable. */
  ghost predicate IsDiscovery(g: Graph, input: seq<Id>, result: seq<Id>)
  {
    result == Dedup(input + Deps(g, result), []) && forall id :: id in result ==> Reachable(g, input, id)
  }

  /** Such a list is duplicate-free and holds exactly what is reachable from the input. */
  lemma DiscoveryIsReachable(g: Graph, input: seq<Id>, result: seq<Id>)
    requires IsDiscovery(g, input, result)
    ensures Distinct(result) && forall id :: id in result <==> Reachable(g, input, id)
  {
    DedupHas(input + Deps(g, result), []);
    DepsHas(g, result);
    forall id | Reachable(g, input, id)
      ensures id in result
    {
      HoldsReachable(g, input, result, id);
    }
  }

  lemma HoldsReachable(g: Graph, input: seq<Id>, ids: seq<Id>, id: Id)
    requires (forall x :: x in input ==> x in ids) && forall d :: d in Deps(g, ids) ==> d in ids
    requires Reachable(g, input, id)
    ensures id in ids
  {
    DepsHas(g, ids);
    var path :| IsPath(g, path) && path[0] in input && path[|path| - 1] == id;
    ClosedHoldsPath(g, ids, path);
  }

  // ---------- the worklist ----------

  /** The work list is the input and the dependencies found, and the result its first i entries without repetitions. */
  ghost predicate Listed(g: Graph, input: seq<Id>, work: seq<Id>, i: nat, result: seq<Id>)
  {
    i <= |work| && work == input + Deps(g, result) && result == Dedup(work[..i], [])
  }

  /** Everything listed is a reachable schema, and the set holds what the result does. */
  ghost predicate Known(g: Graph, input: seq<Id>, work: seq<Id>, seen: set<Id>, result: seq<Id>)
  {
    && AllIn(g, work) && AllIn(g, result) && Distinct(result) && (forall id :: id in seen <==> id in result)
    && (forall id :: id in work ==> Reachable(g, input, id))
  }

  ghost predicate WorkInv(g: Graph, input: seq<Id>, work: seq<Id>, i: nat, seen: set<Id>, result: seq<Id>)
  {
    Listed(g, input, work, i, result) && Known(g, input, work, seen, result)
  }

  lemma SkipStep(g: Graph, input: seq<Id>, work: seq<Id>, i: nat, seen: set<Id>, result: seq<Id>)
    requires WorkInv(g, input, work, i, seen, result) && i < |work| && work[i] in seen
    ensures WorkInv(g, input, work, i + 1, seen, result)
  {
    assert work[..i + 1] == work[..i] + [work[i]];
    DedupAppend(work[..i], work[i], []);
  }

  lemma TakeStep(g: Graph, input: seq<Id>, work: seq<Id>, i: nat, seen: set<Id>, result: seq<Id>)
    requires Closed(g) && WorkInv(g, input, work, i, seen, result) && i < |work| && work[i] !in seen
    ensures work[i] in g && WorkInv(g, input, work + g[work[i]], i + 1, seen + {work[i]}, result + [work[i]])
  {
    assert work[i] in work;
    TakeListed(g, input, work, i, result);
    TakeKnown(g, input, work, seen, result, work[i]);
  }

  lemma TakeListed(g: Graph, input: seq<Id>, work: seq<Id>, i: nat, result: seq<Id>)
    requires Listed(g, input, work, i, result) && i < |work| && work[i] in g && work[i] !in result
    ensures Listed(g, input, work + g[work[i]], i + 1, result + [work[i]])
  {
    DedupTakes(work, i, g[work[i]], result);
    DepsAppend(g, result, work[i]);
  }

  lemma TakeKnown(g: Graph, input: seq<Id>, work: seq<Id>, seen: set<Id>, result: seq<Id>, id: Id)
    requires Closed(g) && Known(g, input, work, seen, result) && id in g && id in work && id !in seen
    ensures Known(g, input, work + g[id], seen + {id}, result + [id])
  {
    MoreReachable(g, input, work, id);
    MoreInGraph(g, work, id);
    DistinctMore(result, id);
  }

  lemma DedupTakes(work: seq<Id>, i: nat, more: seq<Id>, result: seq<Id>)
    requires i < |work| && result == Dedup(work[..i], []) && work[i] !in result
    ensures Dedup((work + more)[..i + 1], []) == result + [work[i]]
  {
    assert (work + more)[..i + 1] == work[..i] + [work[i]];
    DedupAppend(work[..i], work[i], []);
  }

  lemma MoreReachable(g: Graph, input: seq<Id>, work: seq<Id>, id: Id)
    requires id in g && Reachable(g, input, id) && forall x :: x in work ==> Reachable(g, input, x)
    ensures forall x :: x in work + g[id] ==> Reachable(g, input, x)
  {
    forall x | x in work + g[id]
      ensures Reachable(g, input, x)
    {
      if x in g[id] { DependencyIsReachable(g, input, id, x); }
    }
  }

  lemma MoreInGraph(g: Graph, work: seq<Id>, id: Id)
    requires Closed(g) && AllIn(g, work) && id in g
    ensures AllIn(g, work + g[id])
  {
  }

  lemma DistinctMore(ids: seq<Id>, id: Id)
    requires Distinct(ids) && id !in ids
    ensures Distinct(ids + [id])
  {
  }

  lemma ResultFits(g: Graph, result: seq<Id>)
    requires Distinct(result) && AllIn(g, result)
    ensures |result| <= |g.Keys|
  {
    SetOfSize(result);
    SubsetSize(SetOf(result), g.Keys);
  }

  /** add_dependent_schemas. It ends on every finite graph, cyclic or not. */
  method AddDependentSchemas(g: Graph, list: seq<Id>) returns (result: seq<Id>)
    requires Closed(g) && AllIn(g, list)
    ensures IsDiscovery(g, list, result)
    ensures Distinct(result) && forall id :: id in result <==> Reachable(g, list, id)
  {
    var work, i: nat := list, 0;
    var seen: set<Id> := {};
    result := [];
    WorkStarts(g, list);
    while i < |work|
      invariant WorkInv(g, list, work, i, seen, result)
      decreases |g.Keys| - |result|, |work| - i
    {
      work, i, seen, result := TakeNext(g, list, work, i, seen, result);
    }
    WorkDone(g, list, work, seen, result);
  }

  /** One turn of the loop: the next schema of the list, with its dependencies if it is new. */
  method TakeNext(g: Graph, ghost list: seq<Id>, work: seq<Id>, i: nat, seen: set<Id>, result: seq<Id>)
    returns (work': seq<Id>, i': nat, seen': set<Id>, result': seq<Id>)
    requires Closed(g) && WorkInv(g, list, work, i, seen, result) && i < |work|
    ensures WorkInv(g, list, work', i', seen', result') && |result| <= |result'| <= |g.Keys|
    ensures |result'| > |result| || (result' == result && work' == work && i' == i + 1)
  {
    var s := work[i];
    work', i', seen', result' := work, i + 1, seen, result;
    if s in seen {
      SkipStep(g, list, work, i, seen, result);
    } else {
      TakeStep(g, list, work, i, seen, result);
      seen' := seen + {s};
      result' := result + [s];
      work' := work + g[s];
    }
    ResultFits(g, result');
  }

  lemma WorkStarts(g: Graph, input: seq<Id>)
    requires AllIn(g, input)
    ensures WorkInv(g, input, input, 0, {}, [])
  {
    assert input == input + Deps(g, []);
    forall id | id in input
      ensures Reachable(g, input, id)
    {
      RootIsReachable(g, input, id);
    }
  }

  lemma WorkDone(g: Graph, input: seq<Id>, work: seq<Id>, seen: set<Id>, result: seq<Id>)
    requires WorkInv(g, input, work, |work|, seen, result)
    ensures IsDiscovery(g, input, result)
    ensures Distinct(result) && forall id :: id in result <==> Reachable(g, input, id)
  {
    assert work[..|work|] == work;
    DedupHas(work, []);
    DiscoveryIsReachable(g, input, result);
  }

  // ---------- uniqueness and idempotence ----------

  /** There is only one such list: the order is determined by the graph and the input. */
  lemma DiscoveryIsUnique(g: Graph, input: seq<Id>, a: seq<Id>, b: seq<Id>)
    requires IsDiscovery(g, input, a) && IsDiscovery(g, input, b)
    ensures a == b
  {
    SameUpTo(g, input, a, b, |a|);
    SameUpTo(g, input, b, a, |b|);
  }

  lemma {:induction false} SameUpTo(g: Graph, input: seq<Id>, a: seq<Id>, b: seq<Id>, n: nat)
    requires IsDiscovery(g, input, a) && IsDiscovery(g, input, b) && n <= |a|
    ensures n <= |b| && a[..n] == b[..n]
  {
    if n > 0 {
      SameUpTo(g, input, a, b, n - 1);
      DiscoveryIsReachable(g, input, b);
      NthIsFound(g, input, a, n - 1);
      FoundInBoth(g, input, a, b, n - 1);
    }
  }

  ghost function Found(g: Graph, input: seq<Id>, ids: seq<Id>): seq<Id> { Dedup(input + Deps(g, ids), []) }

  lemma FoundIsPrefix(g: Graph, input: seq<Id>, a: seq<Id>, n: nat)
    requires a == Found(g, input, a) && n <= |a|
    ensures Found(g, input, a[..n]) <= a
  {
    DepsPrefix(g, a, n);
    var start, all := input + Deps(g, a[..n]), input + Deps(g, a);
    assert all == start + all[|start|..];
    DedupPrefix(start, all[|start|..], []);
  }

  /** The n-th entry is found among the input and the dependencies of the entries before it: otherwise these entries
      would already hold everything reachable. */
  lemma NthIsFound(g: Graph, input: seq<Id>, a: seq<Id>, n: nat)
    requires IsDiscovery(g, input, a) && n < |a|
    ensures |Found(g, input, a[..n])| > n
  {
    FoundIsPrefix(g, input, a, n);
    var f := Found(g, input, a[..n]);
    if |f| <= n {
      DedupHas(input + Deps(g, a[..n]), []);
      assert forall id :: id in f ==> id in a[..n] by {
        assert forall i :: 0 <= i < |f| ==> f[i] == a[..n][i];
      }
      HoldsReachable(g, input, a[..n], a[n]);
      DiscoveryIsReachable(g, input, a);
    }
  }

  lemma FoundInBoth(g: Graph, input: seq<Id>, a: seq<Id>, b: seq<Id>, n: nat)
    requires a == Found(g, input, a) && b == Found(g, input, b) && n < |a| && n <= |b| && a[..n] == b[..n]
    requires |Found(g, input, a[..n])| > n
    ensures n < |b| && a[..n + 1] == b[..n + 1]
  {
    FoundIsPrefix(g, input, a, n);
    FoundIsPrefix(g, input, b, n);
    var f := Found(g, input, a[..n]);
    assert f[n] == a[n] && f[n] == b[n];
    assert a[..n + 1] == a[..n] + [a[n]] && b[..n + 1] == b[..n] + [b[n]];
  }

  /** Running it again changes nothing. */
  lemma Idempotent(g: Graph, input: seq<Id>, result: seq<Id>, again: seq<Id>)
    requires IsDiscovery(g, input, result) && IsDiscovery(g, result, again)
    ensures again == result
  {
    DiscoveryIsReachable(g, input, result);
    DedupHas(input + Deps(g, result), []);
    DedupFixed(result, Deps(g, result));
    forall id | id in result
      ensures Reachable(g, result, id)
    {
      RootIsReachable(g, result, id);
    }
    DiscoveryIsUnique(g, result, again, result);
  }

  /** A duplicate-free list followed by members of it. */
  lemma DedupFixed(ids: seq<Id>, more: seq<Id>)
    requires Distinct(ids) && forall id :: id in more ==> id in ids
    ensures Dedup(ids + more, []) == ids
  {
    DedupOnto([], ids, more);
    assert [] + ids == ids;
  }

  lemma {:induction false} DedupOnto(seen: seq<Id>, ids: seq<Id>, more: seq<Id>)
    requires Distinct(seen + ids) && forall id :: id in more ==> id in seen + ids
    ensures Dedup(ids + more, seen) == seen + ids
    decreases |ids| + |more|
  {
    if ids != [] {
      assert (ids + more)[1..] == ids[1..] + more;
      assert seen + ids == (seen + [ids[0]]) + ids[1..];
      forall i | 0 <= i < |seen|
        ensures seen[i] != ids[0]
      {
        assert (seen + ids)[i] == seen[i] && (seen + ids)[|seen|] == ids[0];
      }
      DedupOnto(seen + [ids[0]], ids[1..], more);
    } else if more != [] {
      assert ids + more == more && seen + ids == seen;
      DedupOnto(seen, ids, more[1..]);
      assert ids + more[1..] == more[1..];
    } else {
      assert seen + ids == seen;
    }
  }

  lemma {:induction false} DepsPrefix(g: Graph, ids: seq<Id>, n: nat)
    requires n <= |ids|
    ensures Deps(g, ids[..n]) <= Deps(g, ids)
  {
    if n < |ids| {
      DepsPrefix(g, ids[..|ids| - 1], n);
      assert ids[..|ids| - 1][..n] == ids[..n];
    } else {
      assert ids[..n] == ids;
    }
  }

  lemma {:induction false} DedupPrefix(a: seq<Id>, b: seq<Id>, seen: seq<Id>)
    requires Distinct(seen)
    ensures Dedup(a, seen) <= Dedup(a + b, seen)
  {
    if a == [] {
      assert a + b == b;
      DedupHas(b, seen);
    } else {
      assert (a + b)[1..] == a[1..] + b;
      DedupPrefix(a[1..], b, if a[0] in seen then seen else seen + [a[0]]);
    }
  }
}
