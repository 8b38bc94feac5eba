/** The DNS cache of connections/base/dnscache.go: the cache record, the two critical
    sections of a lookup, and the class that runs them. */
module DnsCache {

  type Host = string
  type Ip = string

  /** What a resolver call returned: the addresses and whether it failed. */
  datatype Answer = Answer(ips: seq<Ip>, failed: bool) {
    predicate Cacheable() {
      !failed && |ips| > 0
    }
  }

  datatype Entry = Entry(ips: seq<Ip>, exp: int, stamp: nat)

  /** The fields the cache mutex guards. `inflight` maps a host to the record of its running resolution. */
  datatype Cache = Cache(
    entries: map<Host, Entry>,
    inflight: map<Host, nat>,
    nextSeq: nat,
    hits: nat,
    misses: nat,
    ttl: int,
    max: nat)

  datatype Outcome = Hit(entry: Entry) | Join(flight: nat) | Own(flight: nat)

  /** Every entry carries its own stamp, none of them newer than the counter. */
  ghost predicate StampsDistinct(m: map<Host, Entry>, bound: nat) {
    && (forall h <- m :: 1 <= m[h].stamp <= bound)
    && (forall h, k | h in m && k in m && m[h].stamp == m[k].stamp :: h == k)
  }

  lemma RestampDistinct(m: map<Host, Entry>, bound: nat, host: Host, e: Entry)
    requires StampsDistinct(m, bound) && e.stamp == bound + 1
    ensures StampsDistinct(m[host := e], bound + 1)
  {
  }

  /** The hosts stored later than `h`. */
  function Newer(m: map<Host, Entry>, h: Host): set<Host>
    requires h in m
  {
    set k | k in m && m[h].stamp < m[k].stamp
  }

  /** The entries with at least `max` newer ones. */
  function Stale(m: map<Host, Entry>, max: nat): set<Host> {
    set h | h in m && |Newer(m, h)| >= max
  }

  /** What eviction leaves: the entries with fewer than `max` newer ones. */
  function Newest(m: map<Host, Entry>, max: nat): map<Host, Entry> {
    m - Stale(m, max)
  }

  lemma NewestSame(m: map<Host, Entry>, max: nat, h: Host)
    requires h in Newest(m, max)
    ensures h in m && Newest(m, max)[h] == m[h]
  {
  }

  lemma DropOldest(m: map<Host, Entry>, o: Host, max: nat)
    requires o in m && |m| > max
    requires forall k | k in m && k != o :: m[o].stamp < m[k].stamp
    ensures Newest(m - {o}, max) == Newest(m, max)
  {
    var rest := m - {o};
    assert Newer(m, o) == m.Keys - {o};
    forall h | h in rest ensures Newer(rest, h) == Newer(m, h) {
      assert rest[h] == m[h];
    }
    assert Stale(m, max) == Stale(rest, max) + {o};
    assert rest - Stale(rest, max) == m - (Stale(rest, max) + {o});
  }

  lemma NewestOfFew(m: map<Host, Entry>, max: nat)
    requires |m| <= max
    ensures Newest(m, max) == m
  {
    forall h | h in m ensures |Newer(m, h)| < max {
      assert Newer(m, h) <= m.Keys - {h};
      SubsetSize(Newer(m, h), m.Keys - {h});
    }
  }

  lemma SubsetSize<T>(a: set<T>, b: set<T>)
    requires a <= b
    ensures |a| <= |b|
  {
    assert b == a + (b - a);
  }

  /** The first critical section of a lookup: serve, join or own. `newFlight` names a new in-flight record. */
  function EnterLookup(c: Cache, host: Host, now: int, newFlight: nat): (Cache, Outcome) {
    if host in c.entries && now < c.entries[host].exp then
      (c.(hits := c.hits + 1), Hit(c.entries[host]))
    else if host in c.inflight then
      (c.(misses := c.misses + 1), Join(c.inflight[host]))
    else
      (c.(misses := c.misses + 1, inflight := c.inflight[host := newFlight]), Own(newFlight))
  }

  /** Stamp an entry, insert it, evict. */
  function StoreEntry(c: Cache, host: Host, ips: seq<Ip>, now: int): Cache {
    var e := Entry(ips, now + c.ttl, c.nextSeq + 1);
    c.(nextSeq := c.nextSeq + 1, entries := Newest(c.entries[host := e], c.max))
  }

  /** The second critical section: retire the flight and store a usable answer. */
  function FinishLookup(c: Cache, host: Host, ans: Answer, now: int): Cache {
    var c1 := c.(inflight := c.inflight - {host});
    if ans.Cacheable() then StoreEntry(c1, host, ans.ips, now) else c1
  }

  class DNSCache {
    var entries: map<Host, Entry>
    var inflight: map<Host, nat>
    var nextSeq: nat
    var hits: nat
    var misses: nat
    const ttl: int
    const max: nat

    ghost predicate Valid()
      reads this
    {
      StampsDistinct(entries, nextSeq)
    }

    ghost function Value(): Cache
      reads this
    {
      Cache(entries, inflight, nextSeq, hits, misses, ttl, max)
    }

    constructor (ttl: int, max: nat)
      ensures Valid()
      ensures Value() == Cache(map[], map[], 0, 0, 0, ttl, max)
    {
      this.ttl, this.max := ttl, max;
      entries, inflight, nextSeq, hits, misses := map[], map[], 0, 0, 0;
    }

    /** Lines 83-98: the part of Lookup before the resolver runs. */
    method Enter(host: Host, now: int, newFlight: nat) returns (o: Outcome)
      requires Valid()
      modifies this
      ensures Valid()
      ensures (Value(), o) == EnterLookup(old(Value()), host, now, newFlight)
    {
      if host in entries && now < entries[host].exp {
        hits := hits + 1;
        return Hit(entries[host]);
      }
      misses := misses + 1;
      if host in inflight {
        return Join(inflight[host]);
      }
      inflight := inflight[host := newFlight];
      return Own(newFlight);
    }

    /** Lines 102-113: the part of Lookup after the resolver returned. */
    method Finish(host: Host, ans: Answer, now: int)
      requires Valid()
      modifies this
      ensures Valid()
      ensures Value() == FinishLookup(old(Value()), host, ans, now)
    {
      inflight := inflight - {host};
      assert Value() == old(Value()).(inflight := old(inflight) - {host});
      if ans.Cacheable() {
        Store(host, ans.ips, now);
      }
    }

    /** Lines 105-111: stamp, insert, evict. */
    method Store(host: Host, ips: seq<Ip>, now: int)
      requires Valid()
      modifies this`nextSeq, this`entries
      ensures Valid() && Value() == StoreEntry(old(Value()), host, ips, now)
    {
      hide StampsDistinct, Newest;
      nextSeq := nextSeq + 1;
      var e := Entry(ips, now + ttl, nextSeq);
      RestampDistinct(entries, nextSeq - 1, host, e);
      entries := entries[host := e];
      EvictLocked();
    }

    /** Lines 123-130: a linear scan for the smallest stamp, over the map in any order. */
    method FindOldest() returns (oldestKey: Host)
      requires Valid() && entries != map[]
      ensures oldestKey in entries
      ensures forall k | k in entries && k != oldestKey :: entries[oldestKey].stamp < entries[k].stamp
    {
      var oldestSeq, first := 0, true;
      oldestKey := "";
      var todo := entries.Keys;
      while todo != {}
        invariant todo <= entries.Keys
        invariant first ==> todo == entries.Keys
        invariant !first ==> oldestKey in entries && entries[oldestKey].stamp == oldestSeq
        invariant !first ==> forall k | k in entries && k !in todo :: oldestSeq <= entries[k].stamp
        decreases |todo|
      {
        var k :| k in todo;
        todo := todo - {k};
        if first || entries[k].stamp < oldestSeq {
          oldestKey, oldestSeq, first := k, entries[k].stamp, false;
        }
      }
    }

    /** Lines 121-133: drop the oldest entry until the cache fits. */
    method EvictLocked()
      requires Valid()
      modifies this`entries
      ensures Valid()
      ensures entries == Newest(old(entries), max)
    {
      hide Newest;
      while |entries| > max
        invariant Valid()
        invariant Newest(entries, max) == Newest(old(entries), max)
        decreases |entries|
      {
        var oldestKey := FindOldest();
        DropOldest(entries, oldestKey, max);
        assert (entries - {oldestKey}).Keys == entries.Keys - {oldestKey};
        entries := entries - {oldestKey};
      }
      NewestOfFew(entries, max);
    }
  }
}
