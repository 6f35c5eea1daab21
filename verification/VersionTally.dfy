/** Counting what the previously scheduled witnesses run and vote for. */
module VersionTally {
  import opened Collections
  import opened Ordering

  /** A hardfork version and the time at which to apply it. */
  datatype Proposal = Proposal(version: nat, time: nat)

  /** One entry per distinct value, incremented for each occurrence. */
  method Count<T(!new,==)>(xs: seq<T>) returns (counts: map<T, nat>)
    ensures forall x :: x in counts <==> x in xs
    ensures forall x :: x in counts ==> counts[x] == multiset(xs)[x]
  {
    counts := map[];
    for i := 0 to |xs|
      invariant forall x :: x in counts <==> x in xs[..i]
      invariant forall x :: x in counts ==> counts[x] == multiset(xs[..i])[x]
    {
      assert xs[..i + 1] == xs[..i] + [xs[i]];
      if xs[i] !in counts {
        counts := counts[xs[i] := 1];
      } else {
        counts := counts[xs[i] := counts[xs[i]] + 1];
      }
    }
    assert xs[..|xs|] == xs;
  }

  // ---------- the version a majority runs ----------

  /** How many run version v or newer. */
  ghost function RunningAtLeast(versions: seq<nat>, v: nat): nat
  {
    if versions == [] then 0
    else RunningAtLeast(versions[..|versions| - 1], v) + (if versions[|versions| - 1] >= v then 1 else 0)
  }

  /** Going down to the next version present adds exactly the witnesses running it. */
  lemma {:induction false} NextVersionDown(versions: seq<nat>, high: nat, low: nat)
    requires low < high && forall x :: x in versions && low <= x < high ==> x == low
    ensures RunningAtLeast(versions, low) == RunningAtLeast(versions, high) + multiset(versions)[low]
  {
    if versions != [] {
      var rest, last := versions[..|versions| - 1], versions[|versions| - 1];
      assert versions == rest + [last] && last in versions;
      assert forall x :: x in rest ==> x in versions;
      NextVersionDown(rest, high, low);
    }
  }

  lemma {:induction false} NoneAbove(versions: seq<nat>, v: nat)
    requires forall x :: x in versions ==> x < v
    ensures RunningAtLeast(versions, v) == 0
  {
    if versions != [] {
      var rest, last := versions[..|versions| - 1], versions[|versions| - 1];
      assert versions == rest + [last] && last in versions;
      assert forall x :: x in rest ==> x in versions;
      NoneAbove(rest, v);
    }
  }

  ghost predicate HasMajority(versions: seq<nat>, required: nat, v: nat)
  {
    v in versions && RunningAtLeast(versions, v) >= required
  }

  /** The greatest running version that at least the required number run, in that or a newer version; the current one
      if there is none. */
  ghost predicate IsMajorityVersion(versions: seq<nat>, required: nat, current: nat, v: nat)
  {
    if exists u: nat :: HasMajority(versions, required, u)
    then HasMajority(versions, required, v) && forall u: nat :: HasMajority(versions, required, u) ==> u <= v
    else v == current
  }

  method Descending(versions: set<nat>) returns (order: seq<nat>)
    ensures forall v :: v in order <==> v in versions
    ensures forall i, j :: 0 <= i < j < |order| ==> order[i] > order[j]
  {
    order := InOrder(versions, (a: nat, b: nat) => a >= b);
  }

  /** Walks the versions from newest to oldest, accumulating their witnesses. */
  method MajorityVersion(versions: seq<nat>, required: nat, current: nat) returns (v: nat)
    ensures IsMajorityVersion(versions, required, current, v)
  {
    var counts := Count(versions);
    var order := Descending(counts.Keys);
    var onVersion := 0;
    ghost var seen := if order == [] then 0 else order[0] + 1;
    if order != [] { NoneAbove(versions, seen); }
    for i := 0 to |order|
      invariant i == 0 ==> order != [] ==> seen == order[0] + 1
      invariant i > 0 ==> seen == order[i - 1]
      invariant order != [] ==> onVersion == RunningAtLeast(versions, seen)
      invariant forall j :: 0 <= j < i ==> !HasMajority(versions, required, order[j])
    {
      assert forall x :: x in versions ==> x in order;
      NextVersionDown(versions, seen, order[i]);
      onVersion := onVersion + counts[order[i]];
      seen := order[i];
      if onVersion >= required {
        assert HasMajority(versions, required, order[i]);
        return order[i];
      }
    }
    assert forall u :: u in versions ==> u in order;
    v := current;
  }

  // ---------- the hardfork a majority votes for ----------

  predicate AtMost(a: Proposal, b: Proposal)
  {
    a.version < b.version || (a.version == b.version && a.time <= b.time)
  }

  ghost predicate Wins(votes: seq<Proposal>, required: nat, p: Proposal)
  {
    p in votes && multiset(votes)[p] >= required
  }

  /** The first proposal in the map's order with the required number of votes. */
  method WinningProposal(votes: seq<Proposal>, required: nat) returns (r: Option<Proposal>)
    ensures r.Some? ==> Wins(votes, required, r.value) && forall p :: Wins(votes, required, p) ==> AtMost(r.value, p)
    ensures r.None? ==> forall p :: !Wins(votes, required, p)
  {
    var counts := Count(votes);
    var order := Ascending(counts.Keys);
    for i := 0 to |order|
      invariant forall j :: 0 <= j < i ==> !Wins(votes, required, order[j])
    {
      if counts[order[i]] >= required {
        FirstIsLeast(votes, required, order, i);
        return Some(order[i]);
      }
    }
    assert forall p :: p in votes ==> p in order;
    r := None;
  }

  method Ascending(proposals: set<Proposal>) returns (order: seq<Proposal>)
    ensures forall p :: p in order <==> p in proposals
    ensures forall i :: 0 <= i < |order| ==> order[i] in proposals
    ensures forall i, j :: 0 <= i < j < |order| ==> AtMost(order[i], order[j])
  {
    order := InOrder(proposals, (a, b) => AtMost(a, b));
  }

  lemma FirstIsLeast(votes: seq<Proposal>, required: nat, order: seq<Proposal>, i: nat)
    requires i < |order| && (forall p :: p in votes ==> p in order)
    requires forall j, k :: 0 <= j < k < |order| ==> AtMost(order[j], order[k])
    requires forall j :: 0 <= j < i ==> !Wins(votes, required, order[j])
    ensures forall p :: Wins(votes, required, p) ==> AtMost(order[i], p)
  {
    forall p | Wins(votes, required, p)
      ensures AtMost(order[i], p)
    {
      var j :| 0 <= j < |order| && order[j] == p;
      assert j >= i;
    }
  }

  /** If more than half of the votes are required, at most one proposal can win, so the order does not matter. */
  lemma AtMostOneWinner(votes: seq<Proposal>, required: nat, p: Proposal, q: Proposal)
    requires 2 * required > |votes|
    requires Wins(votes, required, p) && Wins(votes, required, q)
    ensures p == q
  {
    if p != q {
      TwoCounts(votes, p, q);
    }
  }

  lemma {:induction false} TwoCounts<T>(xs: seq<T>, p: T, q: T)
    requires p != q
    ensures multiset(xs)[p] + multiset(xs)[q] <= |xs|
  {
    if xs != [] {
      var rest, last := xs[..|xs| - 1], xs[|xs| - 1];
      assert xs == rest + [last];
      TwoCounts(rest, p, q);
    }
  }
}
