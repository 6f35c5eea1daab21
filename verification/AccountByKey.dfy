/** The index from public keys to accounts, kept up to date by handlers before and after each operation. */
module AccountByKey {
  import opened Collections

  type Key = nat
  type Account = nat

  /** The keys in an account's owner, active and posting authority. */
  datatype Authority = Authority(owner: set<Key>, active: set<Key>, posting: set<Key>)
  {
    function Keys(): set<Key> { owner + active + posting }
  }

  type Authorities = map<Account, Authority>
  type Lookup = set<(Key, Account)>

  datatype Op =
    | AccountCreate(account: Account)
    | AccountCreateWithDelegation(account: Account)
    | AccountUpdate(account: Account)
    | RecoverAccount(account: Account)
    | Pow(account: Account)
    | Pow2(account: Account)
    | CreateClaimedAccount(account: Account)
    | Hardfork(cleared: set<Account>)
    | Other

  /** The operation is about one account. */
  predicate HasAccount(op: Op) { !op.Other? && !op.Hardfork? }

  /** What the evaluator of an operation may do to the authorities: creations add the account, updates change it, a
      proof of work adds its account or leaves it alone, a hardfork clears the posting authority of some accounts, and
      nothing else touches any authority. */
  ghost predicate Evaluates(op: Op, before: Authorities, after: Authorities)
  {
    match op
    case AccountCreate(a) => a !in before && a in after && after == before[a := after[a]]
    case AccountCreateWithDelegation(a) => a !in before && a in after && after == before[a := after[a]]
    case CreateClaimedAccount(a) => a !in before && a in after && after == before[a := after[a]]
    case AccountUpdate(a) => a in before && a in after && after == before[a := after[a]]
    case RecoverAccount(a) => a in before && a in after && after == before[a := after[a]]
    case Pow(a) => after == before || (a !in before && a in after && after == before[a := after[a]])
    case Pow2(a) => after == before || (a !in before && a in after && after == before[a := after[a]])
    case Hardfork(cleared) =>
      after == map a | a in before :: if a in cleared then before[a].(posting := {}) else before[a]
    case Other => after == before
  }

  /** The keys of the account's three authorities. */
  ghost function KeysOf(auths: Authorities, a: Account): set<Key>
  {
    if a in auths then auths[a].owner + auths[a].active + auths[a].posting else {}
  }

  /** The keys with a row for the account. */
  ghost function RowsOf(lookup: Lookup, a: Account): set<Key> { set row | row in lookup && row.1 == a :: row.0 }

  /** Keys of the account that have no row, and rows for keys it does not have. */
  ghost function Missing(auths: Authorities, lookup: Lookup, a: Account): set<Key>
  {
    KeysOf(auths, a) - RowsOf(lookup, a)
  }

  ghost function Spurious(auths: Authorities, lookup: Lookup, a: Account): set<Key>
  {
    RowsOf(lookup, a) - KeysOf(auths, a)
  }

  /** The rows of the account are exactly the keys of its authorities. */
  ghost predicate Listed(auths: Authorities, lookup: Lookup, a: Account) { RowsOf(lookup, a) == KeysOf(auths, a) }

  /** The rows of one account: keys gained are added, cached keys lost are removed, the others are left as they are. */
  ghost predicate Updated(lookup: Lookup, lookup': Lookup, a: Account, keys: set<Key>, cached: set<Key>)
  {
    forall k, b :: (k, b) in lookup' <==>
      if b != a || (k in keys && k in cached) || (k !in keys && k !in cached) then (k, b) in lookup else k in keys
  }

  lemma RowsAre(lookup: Lookup, a: Account, k: Key)
    ensures k in RowsOf(lookup, a) <==> (k, a) in lookup
  {
    if (k, a) in lookup {
      assert (k, a).1 == a && (k, a).0 == k;
    }
  }

  /** After an update the account's rows are its new keys, except those cached without a row, and the stale rows of keys
      it neither has nor had cached. No other account's rows change. */
  lemma UpdatedRows(lookup: Lookup, lookup': Lookup, a: Account, keys: set<Key>, cached: set<Key>)
    requires Updated(lookup, lookup', a, keys, cached)
    ensures keys - RowsOf(lookup', a) == (keys * cached) - RowsOf(lookup, a)
    ensures RowsOf(lookup', a) - keys == RowsOf(lookup, a) - keys - cached
    ensures forall b :: b != a ==> RowsOf(lookup', b) == RowsOf(lookup, b)
  {
    forall k: Key, b: Account
      ensures k in RowsOf(lookup', b) <==> (k, b) in lookup'
      ensures k in RowsOf(lookup, b) <==> (k, b) in lookup
    {
      RowsAre(lookup', b, k);
      RowsAre(lookup, b, k);
    }
  }

  // ---------- runs ----------

  /** The plugin's cache, the part of the database it depends on, and the states that open sessions would undo to. */
  datatype State = State(cached: set<Key>, auths: Authorities, lookup: Lookup, sessions: seq<(Authorities, Lookup)>)

  datatype Event = Failed(op: Op) | Applied(op: Op, after: Authorities) | Start | Squashed | Undone

  predicate Handled(op: Op) { HasAccount(op) && !op.CreateClaimedAccount? }

  /** The cache after the handler before an operation. */
  function PreCached(op: Op, auths: Authorities, cached: set<Key>): set<Key>
  {
    if !Handled(op) then cached
    else if (op.AccountUpdate? || op.RecoverAccount?) && op.account in auths then auths[op.account].Keys()
    else {}
  }

  ghost predicate Next(st: State, e: Event, st': State)
  {
    match e
    case Failed(op) => st' == st.(cached := PreCached(op, st.auths, st.cached))
    case Applied(op, after) =>
      && Evaluates(op, st.auths, after) && st'.auths == after && st'.sessions == st.sessions
      && (if Handled(op) && op.account in after
          then st'.cached == {} && Updated(st.lookup, st'.lookup, op.account, after[op.account].Keys(),
                                           PreCached(op, st.auths, st.cached))
          else st'.cached == PreCached(op, st.auths, st.cached) && st'.lookup == st.lookup)
    case Start => st' == st.(sessions := st.sessions + [(st.auths, st.lookup)])
    case Squashed => st.sessions != [] && st' == st.(sessions := st.sessions[..|st.sessions| - 1])
    case Undone =>
      && st.sessions != []
      && st' == State(st.cached, st.sessions[|st.sessions| - 1].0, st.sessions[|st.sessions| - 1].1,
                      st.sessions[..|st.sessions| - 1])
  }

  /** The account is listed exactly, now and in every state that could be undone to; nothing is said about the cache. */
  ghost predicate ExactFor(st: State, a: Account)
  {
    && Listed(st.auths, st.lookup, a)
    && forall i :: 0 <= i < |st.sessions| ==> Listed(st.sessions[i].0, st.sessions[i].1, a)
  }

  /** The event changes the account's keys through an operation neither handler knows: it creates the account as a
      claimed one with keys, or is a hardfork that clears a key. */
  ghost predicate MissesKeys(st: State, e: Event, a: Account)
  {
    e.Applied? && !Handled(e.op) && KeysOf(e.after, a) != KeysOf(st.auths, a)
  }

  lemma OthersStay(st: State, e: Event, st': State, a: Account)
    requires Next(st, e, st') && e.Applied? && !e.op.Hardfork? && (e.op.Other? || e.op.account != a)
    ensures KeysOf(st'.auths, a) == KeysOf(st.auths, a) && RowsOf(st'.lookup, a) == RowsOf(st.lookup, a)
  {
    if Handled(e.op) && e.op.account in e.after {
      UpdatedRows(st.lookup, st'.lookup, e.op.account, e.after[e.op.account].Keys(),
                  PreCached(e.op, st.auths, st.cached));
    }
  }

  /** What an operation leaves missing for its own account, whatever was missing before: an update keeps missing what
      was missing and is still held; a creation or a proof of work lists everything; a claimed creation lists
      nothing. */
  lemma MissingAfter(st: State, e: Event, st': State)
    requires Next(st, e, st') && e.Applied? && HasAccount(e.op)
    ensures var a := e.op.account;
      Missing(st'.auths, st'.lookup, a) ==
        if e.op.CreateClaimedAccount? then KeysOf(e.after, a) - RowsOf(st.lookup, a)
        else if e.op.AccountUpdate? || e.op.RecoverAccount? then Missing(st.auths, st.lookup, a) * KeysOf(e.after, a)
        else {}
    ensures var a := e.op.account;
      Spurious(st'.auths, st'.lookup, a) == Spurious(st.auths, st.lookup, a) - KeysOf(e.after, a)
  {
    if Handled(e.op) && e.op.account in e.after {
      UpdatedRows(st.lookup, st'.lookup, e.op.account, e.after[e.op.account].Keys(),
                  PreCached(e.op, st.auths, st.cached));
    }
  }

  lemma ListedIfNothingMissing(auths: Authorities, lookup: Lookup, a: Account)
    ensures Listed(auths, lookup, a) <==> Missing(auths, lookup, a) == {} && Spurious(auths, lookup, a) == {}
  {
  }

  /** An account that is listed exactly stays so exactly if the event does not change its keys behind the handlers'
      back, whether operations succeed, fail after their first handler, or are undone. */
  lemma ExactUnlessMissed(st: State, e: Event, st': State, a: Account)
    requires ExactFor(st, a) && Next(st, e, st')
    ensures ExactFor(st', a) <==> !MissesKeys(st, e, a)
  {
    if e.Applied? {
      if e.op.Hardfork? {
        assert st'.lookup == st.lookup;
      } else if e.op.Other? || e.op.account != a {
        OthersStay(st, e, st', a);
      } else {
        MissingAfter(st, e, st');
        ListedIfNothingMissing(st.auths, st.lookup, a);
        ListedIfNothingMissing(st'.auths, st'.lookup, a);
      }
    }
  }

  ghost predicate IsRun(states: seq<State>, events: seq<Event>)
  {
    |states| == |events| + 1 && forall i :: 0 <= i < |events| ==> Next(states[i], events[i], states[i + 1])
  }

  /** Over any run of operations that succeed, fail or are undone, every account that is listed exactly at the start, or
      does not exist yet and has no rows, stays listed exactly, whatever stale keys the cache holds and whatever happens
      to other accounts, up to an event that changes its keys behind the handlers' back. */
  lemma {:induction false} RunStaysExact(states: seq<State>, events: seq<Event>, a: Account, n: nat)
    requires IsRun(states, events) && ExactFor(states[0], a) && n < |states|
    requires forall i :: 0 <= i < n ==> !MissesKeys(states[i], events[i], a)
    ensures ExactFor(states[n], a)
    ensures n < |events| ==> (ExactFor(states[n + 1], a) <==> !MissesKeys(states[n], events[n], a))
  {
    if n > 0 {
      RunStaysExact(states, events, a, n - 1);
    }
    if n < |events| {
      ExactUnlessMissed(states[n], events[n], states[n + 1], a);
    }
  }

  /** Nothing is undone, there is no hardfork, and only updates and recoveries touch the account. */
  ghost predicate OnlyUpdates(e: Event, a: Account)
  {
    match e
    case Applied(op, _) => op.Other? || (HasAccount(op) && (op.account != a || op.AccountUpdate? || op.RecoverAccount?))
    case _ => !e.Undone?
  }

  /** A key without a row stays without one as long as the account keeps it through updates alone. */
  lemma {:induction false} StaysMissing(states: seq<State>, events: seq<Event>, a: Account, k: Key, n: nat)
    requires IsRun(states, events) && n < |states| && k in Missing(states[0].auths, states[0].lookup, a)
    requires forall i :: 0 <= i <= n ==> k in KeysOf(states[i].auths, a)
    requires forall i :: 0 <= i < n ==> OnlyUpdates(events[i], a)
    ensures k in Missing(states[n].auths, states[n].lookup, a)
  {
    if n > 0 {
      StaysMissing(states, events, a, k, n - 1);
      var st, e, st' := states[n - 1], events[n - 1], states[n];
      if e.Applied? {
        if e.op.Other? || e.op.account != a {
          OthersStay(st, e, st', a);
        } else {
          MissingAfter(st, e, st');
        }
      }
    }
  }

  // ---------- the plugin ----------

  class KeyIndex {
    var cached: set<Key>
    var authorities: Authorities
    var lookup: Lookup
    var sessions: seq<(Authorities, Lookup)>

    ghost function Snapshot(): State
      reads this
    {
      State(cached, authorities, lookup, sessions)
    }

    constructor ()
      ensures authorities == map[] && lookup == {} && sessions == []
    {
      cached, authorities, lookup, sessions := {}, map[], {}, [];
    }

    method CacheAuths(a: Account)
      requires a in authorities
      modifies this`cached
      ensures cached == old(cached) + authorities[a].Keys()
    {
      var auth := authorities[a];
      cached := cached + auth.owner;
      cached := cached + auth.active;
      cached := cached + auth.posting;
    }

    /** The handler before an operation. */
    method PreApply(op: Op)
      modifies this`cached
      ensures cached == PreCached(op, authorities, old(cached))
    {
      match op {
        case Other =>
        case Hardfork(_) =>
        case CreateClaimedAccount(_) =>
        case AccountUpdate(a) =>
          cached := {};
          if a in authorities { CacheAuths(a); }
        case RecoverAccount(a) =>
          cached := {};
          if a in authorities { CacheAuths(a); }
        case _ =>
          cached := {};
      }
    }

    /** The handler after an operation. */
    method PostApply(op: Op)
      modifies this`cached, this`lookup
      ensures if Handled(op) && op.account in authorities
              then cached == {} && Updated(old(lookup), lookup, op.account, authorities[op.account].Keys(), old(cached))
              else cached == old(cached) && lookup == old(lookup)
    {
      match op {
        case Other =>
        case Hardfork(_) =>
        case CreateClaimedAccount(_) =>
        case _ =>
          if op.account in authorities {
            UpdateKeyLookup(op.account, authorities[op.account]);
          }
      }
    }

    method UpdateKeyLookup(a: Account, auth: Authority)
      modifies this`cached, this`lookup
      ensures cached == {} && Updated(old(lookup), lookup, a, auth.Keys(), old(cached))
    {
      var keys := auth.owner;
      keys := keys + auth.active;
      keys := keys + auth.posting;
      AddKeys(a, keys);
      RemoveKeys(a);
      cached := {};
    }

    /** Keys that were not cached get a row; the others are taken out of the cache, so that they are not removed. */
    method AddKeys(a: Account, keys: set<Key>)
      modifies this`cached, this`lookup
      ensures cached == old(cached) - keys
      ensures lookup == old(lookup) + set k | k in keys && k !in old(cached) :: (k, a)
    {
      var todo := keys;
      while todo != {}
        invariant todo <= keys
        invariant cached == old(cached) - (keys - todo)
        invariant lookup == old(lookup) + set k | k in keys - todo && k !in old(cached) :: (k, a)
        decreases todo
      {
        var k :| k in todo;
        if k !in cached {
          if (k, a) !in lookup {
            lookup := lookup + {(k, a)};
          }
        } else {
          cached := cached - {k};
        }
        todo := todo - {k};
      }
    }

    method RemoveKeys(a: Account)
      modifies this`lookup
      ensures lookup == old(lookup) - set k | k in cached :: (k, a)
    {
      var todo := cached;
      while todo != {}
        invariant todo <= cached
        invariant lookup == old(lookup) - set k | k in cached - todo :: (k, a)
        decreases todo
      {
        var k :| k in todo;
        if (k, a) in lookup {
          lookup := lookup - {(k, a)};
        }
        todo := todo - {k};
      }
    }

    /** One operation. A failing one stops after the handler before it, with its keys still cached. */
    method Apply(op: Op, result: Option<Authorities>)
      requires result.Some? ==> Evaluates(op, authorities, result.value)
      modifies this`cached, this`lookup, this`authorities
      ensures Next(old(Snapshot()), if result.Some? then Applied(op, result.value) else Failed(op), Snapshot())
    {
      PreApply(op);
      if result.Some? {
        authorities := result.value;
        PostApply(op);
      }
    }

    method StartSession()
      modifies this`sessions
      ensures Next(old(Snapshot()), Start, Snapshot())
    {
      sessions := sessions + [(authorities, lookup)];
    }

    /** The open session's changes are kept. */
    method Squash()
      requires sessions != []
      modifies this`sessions
      ensures Next(old(Snapshot()), Squashed, Snapshot())
    {
      sessions := sessions[..|sessions| - 1];
    }

    /** The open session's changes to the database are undone; the cache is not part of the database. */
    method Undo()
      requires sessions != []
      modifies this`sessions, this`authorities, this`lookup
      ensures Next(old(Snapshot()), Undone, Snapshot())
    {
      authorities, lookup := sessions[|sessions| - 1].0, sessions[|sessions| - 1].1;
      sessions := sessions[..|sessions| - 1];
    }
  }
}
