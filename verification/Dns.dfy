/** The DNS cache against the plain resolver, with an explicit clock (src/router/dns.rs). */
module Dns {
  import opened Wrappers
  import opened Net

  /** The clock counts nanoseconds; lifetimes are whole seconds. */
  const SECOND: nat := 1_000_000_000

  datatype CacheEntry = CacheEntry(addresses: seq<IpAddr>, createdAt: nat, ttl: nat)

  type Cache = map<string, CacheEntry>

  predicate IsExpired(entry: CacheEntry, now: nat) {
    now - entry.createdAt > entry.ttl * SECOND
  }

  /** What the upstream resolver would answer to one lookup. */
  datatype Lookup = Failed | Answer(addresses: seq<IpAddr>)

  function Hit(cache: Cache, domain: string, now: nat): Option<seq<IpAddr>> {
    if domain in cache && !IsExpired(cache[domain], now) then Some(cache[domain].addresses) else None
  }

  /** The upstream is asked only on a miss; only nonempty answers are stored, stamped with
      the time the answer came in. */
  function Resolve(cache: Cache, ttl: nat, domain: string, now: nat, upstream: Lookup, later: nat)
    : (Cache, Result<seq<IpAddr>>)
  {
    match Hit(cache, domain, now)
    case Some(addresses) => (cache, Ok(addresses))
    case None =>
      if upstream.Failed? || upstream.addresses == [] then (cache, Err(DnsError))
      else (cache[domain := CacheEntry(upstream.addresses, later, ttl)], Ok(upstream.addresses))
  }

  function Prune(cache: Cache, now: nat): Cache {
    map d | d in cache && !IsExpired(cache[d], now) :: cache[d]
  }

  class DnsResolver {
    var cache: Cache
    const defaultTtl: nat

    constructor (defaultTtl: nat)
      ensures cache == map[] && this.defaultTtl == defaultTtl
    {
      cache := map[];
      this.defaultTtl := defaultTtl;
    }

    method ResolveDomain(domain: string, now: nat, upstream: Lookup, later: nat) returns (r: Result<seq<IpAddr>>)
      modifies this
      ensures (cache, r) == Resolve(old(cache), defaultTtl, domain, now, upstream, later)
    {
      if domain in cache && !IsExpired(cache[domain], now) {
        return Ok(cache[domain].addresses);
      }
      if upstream.Failed? { return Err(DnsError); }
      var addresses := upstream.addresses;
      if addresses == [] { return Err(DnsError); }
      cache := cache[domain := CacheEntry(addresses, later, defaultTtl)];
      r := Ok(addresses);
    }

    method ClearCache()
      modifies this
      ensures cache == map[]
    {
      cache := map[];
    }

    method PruneCache(now: nat)
      modifies this
      ensures cache == Prune(old(cache), now)
    {
      var left := cache.Keys;
      while left != {}
        invariant left <= cache.Keys <= old(cache).Keys
        invariant forall d :: d in cache ==> cache[d] == old(cache)[d]
        invariant forall d :: d in cache ==> d in left || !IsExpired(cache[d], now)
        invariant forall d :: d in old(cache) && !IsExpired(old(cache)[d], now) ==> d in cache
        decreases |left|
      {
        var d :| d in left;
        left := left - {d};
        if IsExpired(cache[d], now) {
          cache := cache - {d};
        }
      }
    }

    method CacheStats(now: nat) returns (total: nat, expired: nat)
      ensures total == |cache|
      ensures expired == |set d | d in cache && IsExpired(cache[d], now)|
    {
      total := |cache|;
      expired := 0;
      var left := cache.Keys;
      while left != {}
        invariant left <= cache.Keys
        invariant expired == |set d | d in cache && d !in left && IsExpired(cache[d], now)|
        decreases |left|
      {
        var d :| d in left;
        ghost var seen := set d | d in cache && d !in left && IsExpired(cache[d], now);
        left := left - {d};
        ghost var more := set d | d in cache && d !in left && IsExpired(cache[d], now);
        if IsExpired(cache[d], now) {
          assert more == seen + {d};
          expired := expired + 1;
        } else {
          assert more == seen;
        }
      }
      assert (set d | d in cache && d !in left && IsExpired(cache[d], now)) ==
             set d | d in cache && IsExpired(cache[d], now);
    }
  }

  /** Right after pruning nothing counts as expired, and the live entries are all kept. */
  lemma PrunedHasNoExpired(cache: Cache, now: nat)
    ensures (set d | d in Prune(cache, now) && IsExpired(Prune(cache, now)[d], now)) == {}
    ensures |Prune(cache, now)| == |set d | d in cache && !IsExpired(cache[d], now)|
  {
    assert Prune(cache, now).Keys == set d | d in cache && !IsExpired(cache[d], now);
  }

  // ---------------------------------------------------------------------------------------
  // Whole runs
  // ---------------------------------------------------------------------------------------

  datatype Op =
    | DoResolve(domain: string, now: nat, upstream: Lookup, later: nat)
    | DoPrune(now: nat)
    | DoClear

  /** The clock never goes back, within a call or from one call to the next. */
  predicate Monotone(clock: nat, ops: seq<Op>)
    decreases |ops|
  {
    ops == [] ||
    match ops[0]
    case DoResolve(_, now, _, later) => clock <= now <= later && Monotone(later, ops[1..])
    case DoPrune(now) => clock <= now && Monotone(now, ops[1..])
    case DoClear => Monotone(clock, ops[1..])
  }

  function After(cache: Cache, ttl: nat, op: Op): Cache {
    match op
    case DoResolve(domain, now, upstream, later) => Resolve(cache, ttl, domain, now, upstream, later).0
    case DoPrune(now) => Prune(cache, now)
    case DoClear => map[]
  }

  function Clock(clock: nat, op: Op): nat {
    match op
    case DoResolve(_, _, _, later) => later
    case DoPrune(now) => now
    case DoClear => clock
  }

  /** One result given to a caller, and when. */
  datatype Outcome = Outcome(domain: string, at: nat, result: Result<seq<IpAddr>>)

  /** One answer of the upstream resolver, and when it came in. */
  datatype Upstream = Upstream(domain: string, addresses: seq<IpAddr>, at: nat)

  function OutcomeOf(cache: Cache, ttl: nat, op: Op): seq<Outcome> {
    match op
    case DoResolve(domain, now, upstream, later) =>
      [Outcome(domain, if Hit(cache, domain, now).Some? then now else later,
               Resolve(cache, ttl, domain, now, upstream, later).1)]
    case _ => []
  }

  function UpstreamOf(cache: Cache, op: Op): set<Upstream> {
    if op.DoResolve? && Hit(cache, op.domain, op.now).None? && op.upstream.Answer? then
      {Upstream(op.domain, op.upstream.addresses, op.later)}
    else {}
  }

  function Outcomes(cache: Cache, ttl: nat, ops: seq<Op>): seq<Outcome>
    decreases |ops|
  {
    if ops == [] then []
    else OutcomeOf(cache, ttl, ops[0]) + Outcomes(After(cache, ttl, ops[0]), ttl, ops[1..])
  }

  /** Every answer the upstream resolver gave in the run. */
  function Asked(cache: Cache, ttl: nat, ops: seq<Op>): set<Upstream>
    decreases |ops|
  {
    if ops == [] then {}
    else UpstreamOf(cache, ops[0]) + Asked(After(cache, ttl, ops[0]), ttl, ops[1..])
  }

  /** Every entry was answered upstream, is not empty and is not from the future. */
  ghost predicate Faithful(cache: Cache, ttl: nat, asked: set<Upstream>, clock: nat) {
    forall d :: d in cache ==>
      && cache[d].addresses != [] && cache[d].ttl == ttl && cache[d].createdAt <= clock
      && Upstream(d, cache[d].addresses, cache[d].createdAt) in asked
  }

  /** The upstream gave exactly this answer at most ttl seconds before. */
  ghost predicate Backed(o: Outcome, ttl: nat, asked: set<Upstream>) {
    o.result.Ok? ==>
      o.result.value != [] &&
      exists u :: u in asked && u.domain == o.domain && u.addresses == o.result.value
                  && u.at <= o.at <= u.at + ttl * SECOND
  }

  lemma {:induction false} RunIsFaithful(cache: Cache, ttl: nat, asked: set<Upstream>, clock: nat, ops: seq<Op>)
    requires Faithful(cache, ttl, asked, clock) && Monotone(clock, ops)
    ensures forall o :: o in Outcomes(cache, ttl, ops) ==> Backed(o, ttl, asked + Asked(cache, ttl, ops))
    decreases |ops|
  {
    if ops != [] {
      var next := After(cache, ttl, ops[0]);
      var more := asked + UpstreamOf(cache, ops[0]);
      assert Faithful(next, ttl, more, Clock(clock, ops[0]));
      RunIsFaithful(next, ttl, more, Clock(clock, ops[0]), ops[1..]);
      var all := asked + Asked(cache, ttl, ops);
      assert all == more + Asked(next, ttl, ops[1..]);
      forall o | o in OutcomeOf(cache, ttl, ops[0]) ensures Backed(o, ttl, all) {
        if o.result.Ok? {
          OutcomeIsBacked(cache, ttl, asked, clock, ops[0], all);
        }
      }
    }
  }

  lemma OutcomeIsBacked(cache: Cache, ttl: nat, asked: set<Upstream>, clock: nat, op: Op, all: set<Upstream>)
    requires Faithful(cache, ttl, asked, clock) && op.DoResolve? && clock <= op.now <= op.later
    requires asked + UpstreamOf(cache, op) <= all
    ensures Backed(OutcomeOf(cache, ttl, op)[0], ttl, all)
  {
    var o := OutcomeOf(cache, ttl, op)[0];
    if Hit(cache, op.domain, op.now).Some? {
      var e := cache[op.domain];
      assert Upstream(op.domain, e.addresses, e.createdAt) in all;
    } else if o.result.Ok? {
      assert Upstream(op.domain, op.upstream.addresses, op.later) in all;
    }
  }

  /** From an empty cache and a clock that never goes back, every answer given was given by
      the upstream for that domain at most ttl seconds before, and none is empty. */
  lemma AnswersAreFresh(ttl: nat, clock: nat, ops: seq<Op>)
    requires Monotone(clock, ops)
    ensures forall o :: o in Outcomes(map[], ttl, ops) ==> Backed(o, ttl, Asked(map[], ttl, ops))
  {
    RunIsFaithful(map[], ttl, {}, clock, ops);
    assert {} + Asked(map[], ttl, ops) == Asked(map[], ttl, ops);
  }

  /** The two caches answer alike from this moment on. */
  ghost predicate SameHits(a: Cache, b: Cache, clock: nat) {
    forall d, t: nat :: clock <= t ==> Hit(a, d, t) == Hit(b, d, t)
  }

  lemma {:induction false} SameHitsSameOutcomes(a: Cache, b: Cache, ttl: nat, clock: nat, ops: seq<Op>)
    requires SameHits(a, b, clock) && Monotone(clock, ops)
    ensures Outcomes(a, ttl, ops) == Outcomes(b, ttl, ops)
    ensures Asked(a, ttl, ops) == Asked(b, ttl, ops)
    decreases |ops|
  {
    if ops != [] {
      SameHitsStep(a, b, ttl, clock, ops[0]);
      SameHitsSameOutcomes(After(a, ttl, ops[0]), After(b, ttl, ops[0]), ttl, Clock(clock, ops[0]), ops[1..]);
    }
  }

  lemma SameHitsStep(a: Cache, b: Cache, ttl: nat, clock: nat, op: Op)
    requires SameHits(a, b, clock) && Monotone(clock, [op])
    ensures SameHits(After(a, ttl, op), After(b, ttl, op), Clock(clock, op))
    ensures OutcomeOf(a, ttl, op) == OutcomeOf(b, ttl, op) && UpstreamOf(a, op) == UpstreamOf(b, op)
  {
    if op.DoResolve? {
      assert Hit(a, op.domain, op.now) == Hit(b, op.domain, op.now);
      forall d, t: nat | op.later <= t ensures Hit(After(a, ttl, op), d, t) == Hit(After(b, ttl, op), d, t) {
        assert Hit(a, d, t) == Hit(b, d, t);
      }
    } else if op.DoPrune? {
      PruneKeepsHits(a, op.now);
      PruneKeepsHits(b, op.now);
      forall d, t: nat | op.now <= t ensures Hit(Prune(a, op.now), d, t) == Hit(Prune(b, op.now), d, t) {
        assert Hit(Prune(a, op.now), d, t) == Hit(a, d, t);
        assert Hit(Prune(b, op.now), d, t) == Hit(b, d, t);
      }
    }
  }

  lemma PruneKeepsHits(cache: Cache, now: nat)
    ensures SameHits(Prune(cache, now), cache, now)
  {
  }

  /** A prune put anywhere into a run changes no later answer and no upstream lookup. */
  lemma {:induction false} PruneIsInvisible(cache: Cache, ttl: nat, clock: nat, before: seq<Op>, now: nat,
      after: seq<Op>)
    requires Monotone(clock, before + [DoPrune(now)] + after)
    ensures Outcomes(cache, ttl, before + [DoPrune(now)] + after) == Outcomes(cache, ttl, before + after)
    ensures Asked(cache, ttl, before + [DoPrune(now)] + after) == Asked(cache, ttl, before + after)
    decreases |before|
  {
    var with := before + [DoPrune(now)] + after;
    if before == [] {
      assert with[1..] == after && before + after == after;
      PruneKeepsHits(cache, now);
      SameHitsSameOutcomes(Prune(cache, now), cache, ttl, now, after);
    } else {
      assert with[0] == before[0] == (before + after)[0];
      assert with[1..] == before[1..] + [DoPrune(now)] + after;
      assert (before + after)[1..] == before[1..] + after;
      PruneIsInvisible(After(cache, ttl, before[0]), ttl, Clock(clock, before[0]), before[1..], now, after);
    }
  }

  function CacheAfter(cache: Cache, ttl: nat, ops: seq<Op>): Cache
    decreases |ops|
  {
    if ops == [] then cache else CacheAfter(After(cache, ttl, ops[0]), ttl, ops[1..])
  }

  function ClockAfter(clock: nat, ops: seq<Op>): nat
    decreases |ops|
  {
    if ops == [] then clock else ClockAfter(Clock(clock, ops[0]), ops[1..])
  }

  lemma {:induction false} ClockGrows(clock: nat, ops: seq<Op>)
    requires Monotone(clock, ops)
    ensures clock <= ClockAfter(clock, ops)
    decreases |ops|
  {
    if ops != [] {
      ClockGrows(Clock(clock, ops[0]), ops[1..]);
    }
  }

  /** The cache is used: an answer still live at time t is the one given for its domain in
      every run up to t that does not clear the cache, and the upstream is not asked again. */
  lemma {:induction false} LiveAnswerIsReused(cache: Cache, ttl: nat, clock: nat, ops: seq<Op>, domain: string, t: nat)
    requires Hit(cache, domain, t).Some? && Monotone(clock, ops) && ClockAfter(clock, ops) <= t && DoClear !in ops
    ensures Hit(CacheAfter(cache, ttl, ops), domain, t) == Hit(cache, domain, t)
    ensures forall o :: o in Outcomes(cache, ttl, ops) && o.domain == domain ==>
              o.result == Ok(Hit(cache, domain, t).value)
    ensures forall u :: u in Asked(cache, ttl, ops) ==> u.domain != domain
    decreases |ops|
  {
    if ops != [] {
      var next := After(cache, ttl, ops[0]);
      assert ops == [ops[0]] + ops[1..];
      ClockGrows(Clock(clock, ops[0]), ops[1..]);
      assert next[domain] == cache[domain];
      LiveAnswerIsReused(next, ttl, Clock(clock, ops[0]), ops[1..], domain, t);
    }
  }

  /** No live entry: none at all, or one more than its lifetime in seconds old. */
  predicate Missing(cache: Cache, domain: string, now: nat) {
    domain in cache ==> cache[domain].createdAt + cache[domain].ttl * 1_000_000_000 < now
  }

  /** One lookup: a live entry answers and nothing changes; without one the upstream's list is the
      answer, an error if it failed or is empty. Entries of other domains stay as they were, and
      a failed lookup leaves them all. */
  lemma LookupAnswers(cache: Cache, ttl: nat, domain: string, now: nat, upstream: Lookup, later: nat)
    ensures var (after, r) := Resolve(cache, ttl, domain, now, upstream, later);
            && (!Missing(cache, domain, now) ==> after == cache && r == Ok(cache[domain].addresses))
            && (Missing(cache, domain, now) ==>
                  && (r.Err? <==> upstream.Failed? || upstream.addresses == [])
                  && (r.Ok? ==> r.value == upstream.addresses && domain in after))
            && (r.Err? ==> r.error == DnsError && after == cache)
            && forall d :: d != domain ==> (d in after <==> d in cache) && (d in cache ==> after[d] == cache[d])
  {
  }

  /** What the cache is for: once the upstream has answered a miss at time later, every lookup of
      the domain made in the next ttl seconds, in whatever run without a clear, gets that answer
      whatever the upstream would say, and the upstream is not asked for the domain again. */
  lemma AnswerIsCached(cache: Cache, ttl: nat, domain: string, now: nat, upstream: Lookup, later: nat, ops: seq<Op>)
    requires Missing(cache, domain, now) && upstream.Answer? && upstream.addresses != []
    requires Monotone(later, ops) && ClockAfter(later, ops) <= later + ttl * 1_000_000_000 && DoClear !in ops
    ensures var after := Resolve(cache, ttl, domain, now, upstream, later).0;
            && (forall o :: o in Outcomes(after, ttl, ops) && o.domain == domain ==> o.result == Ok(upstream.addresses))
            && (forall u :: u in Asked(after, ttl, ops) ==> u.domain != domain)
  {
    var after := Resolve(cache, ttl, domain, now, upstream, later).0;
    LiveAnswerIsReused(after, ttl, later, ops, domain, later + ttl * 1_000_000_000);
  }

  /** And no longer: in the nanosecond after, the upstream is asked again. */
  lemma AnswerExpires(cache: Cache, ttl: nat, domain: string, now: nat, upstream: Lookup, later: nat, next: Lookup,
      t: nat)
    requires Missing(cache, domain, now) && upstream.Answer? && upstream.addresses != []
    requires later + ttl * 1_000_000_000 < t
    ensures var after := Resolve(cache, ttl, domain, now, upstream, later).0;
            Resolve(after, ttl, domain, t, next, t).1 ==
            if next.Failed? || next.addresses == [] then Err(DnsError) else Ok(next.addresses)
  {
  }
}
