/** The message cache tied to the block clock, which refines a full log of everything cached and accepted. */
module MessageCache {
  import opened Collections
  import opened Words

  type Hash = nat

  datatype Message = Message(body: seq<int>, contents: Hash, propagation: int)

  datatype Entry = Entry(message: Message, clock: nat)

  /** How many blocks a message stays. */
  function Duration(): nat { 20 }

  datatype Event = Cached(hash: Hash, message: Message) | Accepted

  // ---------- the log ----------

  function Clock(log: seq<Event>): nat
  {
    if log == [] then 0 else Clock(log[..|log| - 1]) + (if log[|log| - 1] == Accepted then 1 else 0)
  }

  /** The block clock is a 32-bit counter that wraps around. */
  function Wrap32(clock: nat): uint32 { clock % 0x1_0000_0000 }

  /** The comparison that drops a message received at one clock value when the clock moves to another. */
  predicate Expires(received: nat, now: nat) { Wrap32(now) > Wrap32(received) + Duration() }

  /** What a node that kept the whole log would answer: the first message cached under the hash, until it expires. */
  function Answer(log: seq<Event>, h: Hash): Option<Entry>
  {
    if log == [] then None
    else
      var past := Answer(log[..|log| - 1], h);
      match log[|log| - 1]
      case Cached(hash, m) => if hash == h && past.None? then Some(Entry(m, Clock(log))) else past
      case Accepted => if past.Some? && Expires(past.value.clock, Clock(log)) then None else past
  }

  lemma Extends(log: seq<Event>, e: Event)
    ensures (log + [e])[..|log + [e]| - 1] == log && (log + [e])[|log + [e]| - 1] == e
  {
  }

  /** Counted without wrapping, a message expires if and only if it is older than the duration, unless it was received
      so late that the 32-bit counter cannot exceed its expiry: then it never expires. */
  lemma ExpiresWhenOld(c: nat, now: nat)
    requires c <= now
    ensures Wrap32(c) + Duration() < 0xFFFF_FFFF && now <= c + Duration() + 1 ==>
      (Expires(c, now) <==> now > c + Duration())
    ensures Wrap32(c) + Duration() >= 0xFFFF_FFFF ==> !Expires(c, now)
  {
    if Wrap32(c) + Duration() < 0xFFFF_FFFF && now <= c + Duration() + 1 {
      DivModUnique(now, 0x1_0000_0000, c / 0x1_0000_0000, Wrap32(c) + (now - c));
    }
  }

  /** A message is cached and other events follow. */
  ghost function Later(log: seq<Event>, h: Hash, m: Message, rest: seq<Event>): seq<Event>
  {
    log + [Cached(h, m)] + rest
  }

  lemma LaterStep(log: seq<Event>, h: Hash, m: Message, rest: seq<Event>)
    requires rest != []
    ensures var all := Later(log, h, m, rest); all[..|all| - 1] == Later(log, h, m, rest[..|rest| - 1])
  {
  }

  lemma LaterStart(log: seq<Event>, h: Hash, m: Message)
    requires Answer(log, h).None?
    ensures Answer(Later(log, h, m, []), h) == Some(Entry(m, Clock(log)))
    ensures Clock(Later(log, h, m, [])) == Clock(log)
  {
    Extends(log, Cached(h, m));
    assert Later(log, h, m, []) == log + [Cached(h, m)];
  }

  /** A message cached under an unused hash at clock c is found, unchanged, exactly while the clock is at most
      c + duration, whatever is cached meanwhile; after that only a later caching can be found. This holds if the
      message can expire before the counter wraps around. */
  lemma {:induction false} FoundExactlyWhileFresh(log: seq<Event>, h: Hash, m: Message, rest: seq<Event>)
    requires Answer(log, h).None? && Wrap32(Clock(log)) + Duration() < 0xFFFF_FFFF
    ensures var all, c := Later(log, h, m, rest), Clock(log);
      && Clock(all) >= c
      && if Clock(all) <= c + Duration() then Answer(all, h) == Some(Entry(m, c))
         else Answer(all, h).None? || Answer(all, h).value.clock > c + Duration()
  {
    if rest == [] {
      LaterStart(log, h, m);
    } else {
      LaterStep(log, h, m, rest);
      FoundExactlyWhileFresh(log, h, m, rest[..|rest| - 1]);
      ExpiresWhenOld(Clock(log), Clock(Later(log, h, m, rest)));
    }
  }

  /** If it cannot, it is found for ever. */
  lemma {:induction false} FoundForEver(log: seq<Event>, h: Hash, m: Message, rest: seq<Event>)
    requires Answer(log, h).None? && Wrap32(Clock(log)) + Duration() >= 0xFFFF_FFFF
    ensures var all := Later(log, h, m, rest); Clock(all) >= Clock(log) && Answer(all, h) == Some(Entry(m, Clock(log)))
  {
    if rest == [] {
      LaterStart(log, h, m);
    } else {
      LaterStep(log, h, m, rest);
      FoundForEver(log, h, m, rest[..|rest| - 1]);
      ExpiresWhenOld(Clock(log), Clock(Later(log, h, m, rest)));
    }
  }

  /** Caching under a hash that is present changes no answer, now or later. */
  lemma {:induction false} RecachingChangesNothing(log: seq<Event>, h: Hash, m: Message, rest: seq<Event>, x: Hash)
    requires Answer(log, h).Some?
    ensures Clock(log + [Cached(h, m)] + rest) == Clock(log + rest)
    ensures Answer(log + [Cached(h, m)] + rest, x) == Answer(log + rest, x)
  {
    Extends(log, Cached(h, m));
    if rest == [] {
      assert log + [Cached(h, m)] + rest == log + [Cached(h, m)] && log + rest == log;
    } else {
      var a, b := log + [Cached(h, m)] + rest, log + rest;
      assert a[..|a| - 1] == log + [Cached(h, m)] + rest[..|rest| - 1];
      assert b[..|b| - 1] == log + rest[..|rest| - 1];
      RecachingChangesNothing(log, h, m, rest[..|rest| - 1], x);
    }
  }

  ghost predicate Contains(log: seq<Event>, h: Hash, contents: Hash)
  {
    Answer(log, h).Some? && Answer(log, h).value.message.contents == contents
  }

  ghost function Data(log: seq<Event>, h: Hash): int
    requires Answer(log, h).Some?
  {
    Answer(log, h).value.message.propagation
  }

  // ---------- the cache ----------

  /** The container holds exactly what the log answers, with the clock values it can store. */
  ghost predicate Refines(entries: map<Hash, Entry>, log: seq<Event>)
  {
    forall h :: if h in entries then Answer(log, h).Some? && entries[h] == Stored(Answer(log, h).value)
      else Answer(log, h).None?
  }

  function Stored(e: Entry): Entry { e.(clock := Wrap32(e.clock)) }

  function Kept(entries: map<Hash, Entry>, clock: nat): map<Hash, Entry>
  {
    map h | h in entries && (clock <= Duration() || entries[h].clock >= clock - Duration()) :: entries[h]
  }

  lemma CacheStep(entries: map<Hash, Entry>, log: seq<Event>, h: Hash, m: Message)
    requires Refines(entries, log)
    ensures Refines(if h in entries then entries else entries[h := Entry(m, Wrap32(Clock(log)))], log + [Cached(h, m)])
  {
  }

  /** Dropping the entries received before clock - duration is dropping the expired ones. */
  lemma AcceptStep(entries: map<Hash, Entry>, log: seq<Event>)
    requires Refines(entries, log)
    ensures Refines(Kept(entries, Wrap32(Clock(log) + 1)), log + [Accepted])
  {
    Extends(log, Accepted);
  }

  lemma TickWraps(c: nat)
    ensures Wrap32(c + 1) == (Wrap32(c) + 1) % 0x1_0000_0000
  {
  }

  class Cache {
    var entries: map<Hash, Entry>
    var clock: uint32
    ghost var log: seq<Event>

    ghost predicate Valid()
      reads this
    {
      clock == Wrap32(Clock(log)) && Refines(entries, log)
    }

    constructor ()
      ensures Valid() && log == []
    {
      entries, clock, log := map[], 0, [];
    }

    method BlockAccepted()
      requires Valid()
      modifies this
      ensures Valid() && log == old(log) + [Accepted]
    {
      AcceptStep(entries, log);
      Extends(log, Accepted);
      TickWraps(Clock(log));
      clock := (clock + 1) % 0x1_0000_0000;
      Expire();
      log := log + [Accepted];
    }

    method Expire()
      modifies this`entries
      ensures entries == Kept(old(entries), clock)
    {
      if clock > Duration() {
        var oldest := clock - Duration();
        entries := map h | h in entries && entries[h].clock >= oldest :: entries[h];
      }
    }

    /** An insertion under a hash that is present is ignored. */
    method CacheMessage(h: Hash, m: Message)
      requires Valid()
      modifies this
      ensures Valid() && log == old(log) + [Cached(h, m)]
    {
      CacheStep(entries, log, h, m);
      Extends(log, Cached(h, m));
      if h !in entries {
        entries := entries[h := Entry(m, clock)];
      }
      log := log + [Cached(h, m)];
    }

    method GetMessage(h: Hash) returns (r: Option<Message>)
      requires Valid()
      ensures r == match Answer(log, h) case Some(e) => Some(e.message) case None => None
    {
      r := if h in entries then Some(entries[h].message) else None;
    }

    /** Looks a message up by what it contains; the zero hash is never found. */
    method GetPropagationData(contents: Hash) returns (r: Option<int>)
      requires Valid()
      ensures r.Some? ==> contents != 0 && exists h :: Contains(log, h, contents) && Data(log, h) == r.value
      ensures r.None? ==> contents == 0 || forall h :: !Contains(log, h, contents)
    {
      r := None;
      if contents != 0 && exists h :: h in entries && entries[h].message.contents == contents {
        var h :| h in entries && entries[h].message.contents == contents;
        r := Some(entries[h].message.propagation);
        assert Contains(log, h, contents) && Data(log, h) == r.value;
      }
    }
  }
}
