/** The rule matcher against the kernel's policy routing
    (src/engine/matcher.rs, src/router/rules.rs, src/engine/dispatcher.rs). */
module Refinement {
  import opened Wrappers
  import opened Net
  import opened Config
  import opened Kernel
  import opened Matcher
  import opened Rules
  import opened Executor
  import opened State
  import opened Dispatcher
  import opened LedgerInvariants
  import opened RuleNames
  import opened DefaultRules
  import opened Runs
  import opened LedgerRuns

  // ---------------------------------------------------------------------------------------
  // How the kernel routes an address
  // ---------------------------------------------------------------------------------------

  /** Within one table: the longest prefix, then the lowest metric (RFC 4632, section 5.1). */
  ghost predicate BestRoute(k: KernelState, table: nat, a: IpAddr, e: Entry) {
    && e in k.routes && e.table == table && Contains(e.dst, a)
    && forall f :: f in k.routes && f.table == table && Contains(f.dst, a) ==>
         f.dst.prefix < e.dst.prefix || (f.dst.prefix == e.dst.prefix && e.rank <= f.rank)
  }

  ghost predicate HasRouteFor(k: KernelState, table: nat, a: IpAddr) {
    exists e :: e in k.routes && e.table == table && Contains(e.dst, a)
  }

  /** The policy rule p decides where the address goes: it covers it, and no rule tried before
      has a route for it. */
  ghost predicate Decides(k: KernelState, a: IpAddr, p: Entry) {
    && p in k.rules && Contains(p.dst, a)
    && forall q :: q in k.rules && Contains(q.dst, a) && q.rank < p.rank ==> !HasRouteFor(k, q.table, a)
  }

  /** Policy rules are tried by preference; the first whose table has a route decides. */
  ghost predicate KernelPicks(k: KernelState, a: IpAddr, e: Entry) {
    exists p :: Decides(k, a, p) && BestRoute(k, p.table, a, e)
  }

  // ---------------------------------------------------------------------------------------
  // Rules placed in tables
  // ---------------------------------------------------------------------------------------

  /** Rule i among the first n, in its table, is the one the entry stands for. */
  predicate Owns(rules: seq<RouteRule>, tables: seq<nat>, n: nat, i: nat, e: Entry) {
    i < n <= |rules| == |tables| && HasDestination(rules[i]) && EntryFor(rules[i], tables[i]) == e
  }

  /** One of the first n rules stands for the entry. */
  ghost predicate Owned(rules: seq<RouteRule>, tables: seq<nat>, n: nat, e: Entry) {
    exists i: nat :: Owns(rules, tables, n, i, e)
  }

  ghost predicate IsFirstOwner(rules: seq<RouteRule>, tables: seq<nat>, n: nat, i: nat, e: Entry) {
    Owns(rules, tables, n, i, e) && forall j: nat :: j < i ==> !Owns(rules, tables, n, j, e)
  }

  /** The kernel holds the entries of the first n rules, each in its table, and the leftovers; of
      equal routes a leftover stays, or else the first rule's. */
  ghost predicate Placed(rules: seq<RouteRule>, tables: seq<nat>, left: Leftovers, n: nat, k: KernelState) {
    && n <= |rules| == |tables|
    && (forall e :: e in k.rules <==> e in left.rules || Owned(rules, tables, n, e))
    && (forall e :: e in k.routes <==> e in left.routes || Owned(rules, tables, n, e))
    && (forall e :: e in left.routes ==> k.routes[e] == left.routes[e])
    && forall i: nat, e :: IsFirstOwner(rules, tables, n, i, e) && e !in left.routes ==>
         e in k.routes && k.routes[e] == rules[i].via
  }

  /** Networks as the kernel stores them. */
  ghost predicate CanonicalRules(rules: seq<RouteRule>) {
    forall r :: r in rules && HasDestination(r) ==> Canonical(GetDestination(r).value)
  }

  ghost predicate CanonicalRoutes(routes: map<Entry, string>) {
    forall e :: e in routes ==> Canonical(e.dst)
  }

  /** Everything the agreement below is about: a kernel that holds the rules and the leftovers. */
  ghost predicate Setting(rules: seq<RouteRule>, tables: seq<nat>, left: Leftovers, k: KernelState) {
    CanonicalRules(rules) && CanonicalRoutes(left.routes) && Placed(rules, tables, left, |rules|, k)
  }

  // ---------------------------------------------------------------------------------------
  // Which policy rules count for an address
  // ---------------------------------------------------------------------------------------

  /** Rule j matches the address and is in this table. */
  predicate MatchesIn(rules: seq<RouteRule>, tables: seq<nat>, table: nat, a: IpAddr, j: nat) {
    j < |rules| == |tables| && RuleMatches(rules[j], DestIp(a)) && tables[j] == table
  }

  /** The table has a route for the address, a matching rule's or a leftover. */
  ghost predicate RouteIn(rules: seq<RouteRule>, tables: seq<nat>, left: Leftovers, table: nat, a: IpAddr) {
    || (exists j: nat :: MatchesIn(rules, tables, table, a, j))
    || exists f :: f in left.routes && f.table == table && Contains(f.dst, a)
  }

  /** The policy rule, a rule's or a leftover, covers the address and its table has a route. */
  ghost predicate Tried(rules: seq<RouteRule>, tables: seq<nat>, left: Leftovers, a: IpAddr, p: Entry) {
    && (p in left.rules || Owned(rules, tables, |rules|, p)) && Contains(p.dst, a)
    && RouteIn(rules, tables, left, p.table, a)
  }

  /** No other such policy rule is preferred to it. */
  ghost predicate TriedFirst(rules: seq<RouteRule>, tables: seq<nat>, left: Leftovers, a: IpAddr, p: Entry) {
    Tried(rules, tables, left, a, p) && forall q :: Tried(rules, tables, left, a, q) ==> p.rank <= q.rank
  }

  // ---------------------------------------------------------------------------------------
  // Agreement at one address
  // ---------------------------------------------------------------------------------------

  /** Whichever policy rule is tried first leads to the table of rule i. */
  ghost predicate LeadsToTable(rules: seq<RouteRule>, tables: seq<nat>, left: Leftovers, a: IpAddr, i: nat)
    requires i < |rules| == |tables|
  {
    forall p :: TriedFirst(rules, tables, left, a, p) ==> p.table == tables[i]
  }

  /** No matching rule in its table has a longer prefix. */
  predicate LeadsRules(rules: seq<RouteRule>, tables: seq<nat>, a: IpAddr, i: nat)
    requires i < |rules| == |tables| && HasDestination(rules[i])
  {
    forall j :: 0 <= j < |rules| && HasDestination(rules[j]) && MatchesIn(rules, tables, tables[i], a, j) ==>
      GetDestination(rules[j]).value.prefix <= GetDestination(rules[i]).value.prefix
  }

  /** No leftover route in the rule's table comes before the rule's own for the address, or
      stands in its place via another interface. */
  predicate LeadsLeftovers(left: Leftovers, rule: RouteRule, table: nat, a: IpAddr)
    requires HasDestination(rule)
  {
    var e := EntryFor(rule, table);
    forall f :: f in left.routes && f.table == table && Contains(f.dst, a) ==>
      || f.dst.prefix < e.dst.prefix
      || (f.dst.prefix == e.dst.prefix && (e.rank < f.rank || (f == e && left.routes[f] == rule.via)))
  }

  ghost predicate Leads(rules: seq<RouteRule>, tables: seq<nat>, left: Leftovers, a: IpAddr, i: nat) {
    && i < |rules| == |tables| && HasDestination(rules[i])
    && LeadsToTable(rules, tables, left, a, i)
    && LeadsRules(rules, tables, a, i) && LeadsLeftovers(left, rules[i], tables[i], a)
  }

  /** Nothing matches and no leftover takes the address, or the best rule by priority leads and
      is not at priority u32::MAX. */
  ghost predicate AlignedAt(rules: seq<RouteRule>, tables: seq<nat>, left: Leftovers, a: IpAddr) {
    || ((forall j :: 0 <= j < |rules| ==> !RuleMatches(rules[j], DestIp(a)))
        && forall p :: !Tried(rules, tables, left, a, p))
    || exists i: nat :: IsFirstBest(rules, DestIp(a), i) && rules[i].priority < U32_MAX
                        && Leads(rules, tables, left, a, i)
  }

  /** The kernel picks the entry of rule i, via its interface, and no other. */
  ghost predicate FollowsRule(rules: seq<RouteRule>, tables: seq<nat>, k: KernelState, a: IpAddr, i: nat) {
    && i < |rules| == |tables| && HasDestination(rules[i])
    && (forall e :: KernelPicks(k, a, e) <==> e == EntryFor(rules[i], tables[i]))
    && EntryFor(rules[i], tables[i]) in k.routes && k.routes[EntryFor(rules[i], tables[i])] == rules[i].via
  }

  /** What the answer None or Some(rule) asks of the kernel. */
  ghost predicate Follows(rules: seq<RouteRule>, tables: seq<nat>, k: KernelState, a: IpAddr, best: Option<RouteRule>) {
    match best
    case None => forall e :: !KernelPicks(k, a, e)
    case Some(rule) =>
      exists i: nat :: IsFirstBest(rules, DestIp(a), i) && rules[i] == rule && FollowsRule(rules, tables, k, a, i)
  }

  /** The kernel routes the address by the entry placed for the matcher's answer, via that
      rule's interface, and by no other; without an answer it routes by none. */
  ghost predicate Agrees(rules: seq<RouteRule>, tables: seq<nat>, k: KernelState, a: IpAddr) {
    exists best :: IsDirectMatch(rules, DestIp(a), best) && Follows(rules, tables, k, a, best)
  }

  lemma MatchingEntry(rules: seq<RouteRule>, tables: seq<nat>, left: Leftovers, k: KernelState, a: IpAddr, i: nat)
    requires Placed(rules, tables, left, |rules|, k) && i < |rules| && RuleMatches(rules[i], DestIp(a))
    ensures HasDestination(rules[i])
    ensures var e := EntryFor(rules[i], tables[i]);
            && e in k.rules && e in k.routes && Contains(e.dst, a) && Owned(rules, tables, |rules|, e)
            && Tried(rules, tables, left, a, e)
  {
    DestinationCoversMatches(rules[i], a);
    assert Owns(rules, tables, |rules|, i, EntryFor(rules[i], tables[i]));
    assert MatchesIn(rules, tables, tables[i], a, i);
  }

  /** A covering route is a matching rule's or a leftover. */
  lemma CoveringRoute(rules: seq<RouteRule>, tables: seq<nat>, left: Leftovers, k: KernelState, a: IpAddr, e: Entry)
    returns (i: nat)
    requires Placed(rules, tables, left, |rules|, k) && e in k.routes && Contains(e.dst, a) && e !in left.routes
    ensures Owns(rules, tables, |rules|, i, e) && MatchesIn(rules, tables, e.table, a, i)
  {
    i :| Owns(rules, tables, |rules|, i, e);
    DestinationCoversMatches(rules[i], a);
  }

  /** The tables that have a route for the address are told from the rules and the leftovers. */
  lemma RouteInIsRoute(rules: seq<RouteRule>, tables: seq<nat>, left: Leftovers, k: KernelState, a: IpAddr, table: nat)
    requires Placed(rules, tables, left, |rules|, k)
    ensures RouteIn(rules, tables, left, table, a) <==> HasRouteFor(k, table, a)
  {
    if j: nat :| MatchesIn(rules, tables, table, a, j) {
      MatchingEntry(rules, tables, left, k, a, j);
    }
    if e :| e in k.routes && e.table == table && Contains(e.dst, a) {
      if e !in left.routes {
        var j := CoveringRoute(rules, tables, left, k, a, e);
      }
    }
  }

  /** What the kernel picks: a best route of the table of a policy rule tried first. */
  lemma PicksIffTriedFirst(rules: seq<RouteRule>, tables: seq<nat>, left: Leftovers, k: KernelState, a: IpAddr,
      e: Entry)
    requires Placed(rules, tables, left, |rules|, k)
    ensures KernelPicks(k, a, e) <==>
            exists p :: TriedFirst(rules, tables, left, a, p) && BestRoute(k, p.table, a, e)
  {
    forall p
      ensures Tried(rules, tables, left, a, p) <==> p in k.rules && Contains(p.dst, a) && HasRouteFor(k, p.table, a)
    {
      RouteInIsRoute(rules, tables, left, k, a, p.table);
    }
    if KernelPicks(k, a, e) {
      var p :| Decides(k, a, p) && BestRoute(k, p.table, a, e);
      assert HasRouteFor(k, p.table, a) && TriedFirst(rules, tables, left, a, p);
    }
    if p :| TriedFirst(rules, tables, left, a, p) && BestRoute(k, p.table, a, e) {
      assert Decides(k, a, p);
    }
  }

  /** Of canonical routes in one table that cover an address, at most one is best. */
  lemma OneBestRoute(k: KernelState, table: nat, a: IpAddr, e: Entry, f: Entry)
    requires BestRoute(k, table, a, e) && BestRoute(k, table, a, f) && Canonical(e.dst) && Canonical(f.dst)
    ensures e == f
  {
    SameLengthSameNetwork(e.dst, f.dst, a);
  }

  lemma PlacedIsCanonical(rules: seq<RouteRule>, tables: seq<nat>, left: Leftovers, k: KernelState, e: Entry)
    requires Setting(rules, tables, left, k) && e in k.routes
    ensures Canonical(e.dst)
  {
    if e !in left.routes {
      var i: nat :| Owns(rules, tables, |rules|, i, e);
      assert rules[i] in rules && GetDestination(rules[i]).value == e.dst;
    }
  }

  /** A leading rule's route is the best in its table. */
  lemma LeadingIsBestRoute(rules: seq<RouteRule>, tables: seq<nat>, left: Leftovers, k: KernelState, a: IpAddr, i: nat)
    requires Setting(rules, tables, left, k) && IsFirstBest(rules, DestIp(a), i) && Leads(rules, tables, left, a, i)
    ensures BestRoute(k, tables[i], a, EntryFor(rules[i], tables[i]))
  {
    MatchingEntry(rules, tables, left, k, a, i);
    var e := EntryFor(rules[i], tables[i]);
    forall f | f in k.routes && f.table == tables[i] && Contains(f.dst, a)
      ensures f.dst.prefix < e.dst.prefix || (f.dst.prefix == e.dst.prefix && e.rank <= f.rank)
    {
      if f !in left.routes {
        var j := CoveringRoute(rules, tables, left, k, a, f);
      }
    }
  }

  /** The first best rule is the first that owns its entry, so the route is its own unless a
      leftover has its place. */
  lemma BestRouteIsItsOwn(rules: seq<RouteRule>, tables: seq<nat>, left: Leftovers, k: KernelState, a: IpAddr, i: nat)
    requires Placed(rules, tables, left, |rules|, k) && IsFirstBest(rules, DestIp(a), i)
    ensures HasDestination(rules[i])
    ensures var e := EntryFor(rules[i], tables[i]);
            e in k.routes && k.routes[e] == if e in left.routes then left.routes[e] else rules[i].via
  {
    MatchingEntry(rules, tables, left, k, a, i);
    var e := EntryFor(rules[i], tables[i]);
    forall j: nat | j < i ensures !Owns(rules, tables, |rules|, j, e) {
      if Owns(rules, tables, |rules|, j, e) {
        DestinationCoversMatches(rules[j], a);
      }
    }
    assert IsFirstOwner(rules, tables, |rules|, i, e);
  }

  /** Among finitely many policy rules there is one of least preference. */
  lemma LeastExists(candidates: set<Entry>) returns (p: Entry)
    requires candidates != {}
    ensures p in candidates && forall q :: q in candidates ==> p.rank <= q.rank
    decreases candidates
  {
    p :| p in candidates;
    var rest := candidates - {p};
    if rest != {} {
      var least := LeastExists(rest);
      if least.rank < p.rank {
        p := least;
      }
    }
  }

  lemma TriedFirstExists(rules: seq<RouteRule>, tables: seq<nat>, left: Leftovers, k: KernelState, a: IpAddr, p: Entry)
    returns (first: Entry)
    requires Placed(rules, tables, left, |rules|, k) && Tried(rules, tables, left, a, p)
    ensures TriedFirst(rules, tables, left, a, first)
  {
    var tried := set q | q in k.rules && Tried(rules, tables, left, a, q);
    assert p in tried;
    first := LeastExists(tried);
    forall q | Tried(rules, tables, left, a, q) ensures first.rank <= q.rank {
      assert q in tried;
    }
  }

  /** Among finitely many routes of a table that cover the address there is a best one. */
  lemma BestRouteExists(k: KernelState, table: nat, a: IpAddr, candidates: set<Entry>) returns (e: Entry)
    requires candidates != {}
    requires forall f :: f in candidates ==> f in k.routes && f.table == table && Contains(f.dst, a)
    ensures e in candidates
    ensures forall f :: f in candidates ==>
              f.dst.prefix < e.dst.prefix || (f.dst.prefix == e.dst.prefix && e.rank <= f.rank)
    decreases candidates
  {
    e :| e in candidates;
    var rest := candidates - {e};
    if rest != {} {
      var best := BestRouteExists(k, table, a, rest);
      if !(best.dst.prefix < e.dst.prefix || (best.dst.prefix == e.dst.prefix && e.rank <= best.rank)) {
        e := best;
      }
    }
  }

  /** Each policy rule tried first has some route picked from its table. */
  lemma SomethingIsPicked(rules: seq<RouteRule>, tables: seq<nat>, left: Leftovers, k: KernelState, a: IpAddr, p: Entry)
    returns (e: Entry)
    requires Placed(rules, tables, left, |rules|, k) && TriedFirst(rules, tables, left, a, p)
    ensures KernelPicks(k, a, e) && BestRoute(k, p.table, a, e)
  {
    RouteInIsRoute(rules, tables, left, k, a, p.table);
    var covering := set f | f in k.routes && f.table == p.table && Contains(f.dst, a);
    var f :| f in k.routes && f.table == p.table && Contains(f.dst, a);
    assert f in covering;
    e := BestRouteExists(k, p.table, a, covering);
    assert BestRoute(k, p.table, a, e);
    PicksIffTriedFirst(rules, tables, left, k, a, e);
  }

  lemma LeadingIsFollowed(rules: seq<RouteRule>, tables: seq<nat>, left: Leftovers, k: KernelState, a: IpAddr, i: nat)
    requires Setting(rules, tables, left, k) && IsFirstBest(rules, DestIp(a), i) && Leads(rules, tables, left, a, i)
    ensures FollowsRule(rules, tables, k, a, i)
  {
    var e := EntryFor(rules[i], tables[i]);
    MatchingEntry(rules, tables, left, k, a, i);
    BestRouteIsItsOwn(rules, tables, left, k, a, i);
    LeadingIsBestRoute(rules, tables, left, k, a, i);
    var first := TriedFirstExists(rules, tables, left, k, a, e);
    PicksIffTriedFirst(rules, tables, left, k, a, e);
    forall f | KernelPicks(k, a, f) ensures f == e {
      PicksIffTriedFirst(rules, tables, left, k, a, f);
      PlacedIsCanonical(rules, tables, left, k, e);
      PlacedIsCanonical(rules, tables, left, k, f);
      OneBestRoute(k, tables[i], a, e, f);
    }
    if e in left.routes {
      assert Contains(e.dst, a);
    }
  }

  /** The one route picked is the best of its table, */
  lemma FollowedIsBest(rules: seq<RouteRule>, tables: seq<nat>, left: Leftovers, k: KernelState, a: IpAddr, i: nat)
    requires Setting(rules, tables, left, k) && IsFirstBest(rules, DestIp(a), i) && FollowsRule(rules, tables, k, a, i)
    ensures LeadsToTable(rules, tables, left, a, i)
    ensures BestRoute(k, tables[i], a, EntryFor(rules[i], tables[i]))
  {
    forall p | TriedFirst(rules, tables, left, a, p)
      ensures p.table == tables[i] && BestRoute(k, tables[i], a, EntryFor(rules[i], tables[i]))
    {
      var e := SomethingIsPicked(rules, tables, left, k, a, p);
    }
    MatchingEntry(rules, tables, left, k, a, i);
    var first := TriedFirstExists(rules, tables, left, k, a, EntryFor(rules[i], tables[i]));
  }

  /** so no matching rule */
  lemma FollowedLeadsRules(rules: seq<RouteRule>, tables: seq<nat>, left: Leftovers, k: KernelState, a: IpAddr, i: nat)
    requires Placed(rules, tables, left, |rules|, k) && i < |rules| && HasDestination(rules[i])
    requires BestRoute(k, tables[i], a, EntryFor(rules[i], tables[i]))
    ensures LeadsRules(rules, tables, a, i)
  {
    forall j: nat | MatchesIn(rules, tables, tables[i], a, j)
      ensures HasDestination(rules[j])
      ensures GetDestination(rules[j]).value.prefix <= GetDestination(rules[i]).value.prefix
    {
      MatchingEntry(rules, tables, left, k, a, j);
    }
  }

  /** and no leftover comes before it. */
  lemma FollowedLeadsLeftovers(rules: seq<RouteRule>, tables: seq<nat>, left: Leftovers, k: KernelState, a: IpAddr,
      i: nat)
    requires Setting(rules, tables, left, k) && FollowsRule(rules, tables, k, a, i)
    requires BestRoute(k, tables[i], a, EntryFor(rules[i], tables[i]))
    ensures LeadsLeftovers(left, rules[i], tables[i], a)
  {
    var e := EntryFor(rules[i], tables[i]);
    PlacedIsCanonical(rules, tables, left, k, e);
    forall f | f in left.routes && f.table == tables[i] && Contains(f.dst, a)
      ensures f.dst.prefix < e.dst.prefix
              || (f.dst.prefix == e.dst.prefix && (e.rank < f.rank || (f == e && left.routes[f] == rules[i].via)))
    {
      assert f in k.routes;
      if f.dst.prefix == e.dst.prefix {
        SameLengthSameNetwork(e.dst, f.dst, a);
      }
    }
  }

  /** The kernel follows the first best rule exactly when it leads. */
  lemma FollowsIffLeads(rules: seq<RouteRule>, tables: seq<nat>, left: Leftovers, k: KernelState, a: IpAddr, i: nat)
    requires Setting(rules, tables, left, k) && IsFirstBest(rules, DestIp(a), i)
    ensures FollowsRule(rules, tables, k, a, i) <==> Leads(rules, tables, left, a, i)
  {
    if Leads(rules, tables, left, a, i) {
      LeadingIsFollowed(rules, tables, left, k, a, i);
    }
    if FollowsRule(rules, tables, k, a, i) {
      FollowedIsBest(rules, tables, left, k, a, i);
      FollowedLeadsRules(rules, tables, left, k, a, i);
      FollowedLeadsLeftovers(rules, tables, left, k, a, i);
    }
  }

  lemma FirstBestExists(rules: seq<RouteRule>, a: IpAddr, j: nat) returns (i: nat)
    requires j < |rules| && RuleMatches(rules[j], DestIp(a))
    ensures IsFirstBest(rules, DestIp(a), i)
  {
    var found := Matching(rules, DestIp(a));
    MatchingMembers(rules, DestIp(a), rules[j]);
    SortIsStable(found, 0);
    assert rules[j] in multiset(SortByPriority(found));
    i := SortedHeadIsFirstBest(rules, DestIp(a));
  }

  lemma FirstBestIsUnique(rules: seq<RouteRule>, dest: Destination, i: nat, j: nat)
    requires IsFirstBest(rules, dest, i) && IsFirstBest(rules, dest, j)
    ensures i == j
  {
  }

  /** The kernel picks nothing exactly when no policy rule is tried. */
  lemma NothingPickedIffNothingTried(rules: seq<RouteRule>, tables: seq<nat>, left: Leftovers, k: KernelState,
      a: IpAddr)
    requires Placed(rules, tables, left, |rules|, k)
    ensures Follows(rules, tables, k, a, None) <==> forall p :: !Tried(rules, tables, left, a, p)
  {
    forall e ensures KernelPicks(k, a, e) ==> exists p :: Tried(rules, tables, left, a, p) {
      PicksIffTriedFirst(rules, tables, left, k, a, e);
    }
    if p :| Tried(rules, tables, left, a, p) {
      var first := TriedFirstExists(rules, tables, left, k, a, p);
      var e := SomethingIsPicked(rules, tables, left, k, a, first);
    }
  }

  /** The first best rule, or none when its priority is u32::MAX. */
  function Answer(rule: RouteRule): Option<RouteRule> {
    if rule.priority < U32_MAX then Some(rule) else None
  }

  lemma AnswerIsDirectMatch(rules: seq<RouteRule>, dest: Destination, i: nat)
    requires IsFirstBest(rules, dest, i)
    ensures IsDirectMatch(rules, dest, Answer(rules[i]))
  {
  }

  lemma AgreesOnAnswer(rules: seq<RouteRule>, tables: seq<nat>, k: KernelState, a: IpAddr, best: Option<RouteRule>)
    requires IsDirectMatch(rules, DestIp(a), best)
    ensures Agrees(rules, tables, k, a) <==> Follows(rules, tables, k, a, best)
  {
    forall other | IsDirectMatch(rules, DestIp(a), other) ensures other == best {
      DirectMatchIsUnique(rules, DestIp(a), other, best);
    }
  }

  lemma FollowsAnswer(rules: seq<RouteRule>, tables: seq<nat>, left: Leftovers, k: KernelState, a: IpAddr, i: nat)
    requires Setting(rules, tables, left, k) && IsFirstBest(rules, DestIp(a), i)
    ensures Follows(rules, tables, k, a, Answer(rules[i])) <==>
            rules[i].priority < U32_MAX && FollowsRule(rules, tables, k, a, i)
  {
    if rules[i].priority == U32_MAX {
      MatchingEntry(rules, tables, left, k, a, i);
      NothingPickedIffNothingTried(rules, tables, left, k, a);
    } else {
      forall j: nat | IsFirstBest(rules, DestIp(a), j) ensures j == i {
        FirstBestIsUnique(rules, DestIp(a), i, j);
      }
    }
  }

  lemma AlignedAtBest(rules: seq<RouteRule>, tables: seq<nat>, left: Leftovers, a: IpAddr, i: nat)
    requires IsFirstBest(rules, DestIp(a), i)
    ensures AlignedAt(rules, tables, left, a) <==>
            rules[i].priority < U32_MAX && Leads(rules, tables, left, a, i)
  {
    forall j: nat | IsFirstBest(rules, DestIp(a), j) ensures j == i {
      FirstBestIsUnique(rules, DestIp(a), i, j);
    }
  }

  /** Agreement at one address, exactly. */
  lemma AgreesIffAligned(rules: seq<RouteRule>, tables: seq<nat>, left: Leftovers, k: KernelState, a: IpAddr)
    requires Setting(rules, tables, left, k)
    ensures Agrees(rules, tables, k, a) <==> AlignedAt(rules, tables, left, a)
  {
    if j: nat :| j < |rules| && RuleMatches(rules[j], DestIp(a)) {
      var i := FirstBestExists(rules, a, j);
      FollowsIffLeads(rules, tables, left, k, a, i);
      FollowsAnswer(rules, tables, left, k, a, i);
      AnswerIsDirectMatch(rules, DestIp(a), i);
      AgreesOnAnswer(rules, tables, k, a, Answer(rules[i]));
      AlignedAtBest(rules, tables, left, a, i);
    } else {
      NothingPickedIffNothingTried(rules, tables, left, k, a);
      AgreesOnAnswer(rules, tables, k, a, None);
    }
  }

  // ---------------------------------------------------------------------------------------
  // Agreement everywhere, decided at finitely many addresses
  // ---------------------------------------------------------------------------------------

  /** Where a network begins, and the first address past it. */
  predicate BoundaryOf(n: IpNetwork, b: IpAddr) {
    b.family == n.family && (b.bits == First(n).bits || b.bits == Past(n))
  }

  /** Where the set of matching rules, or of covering leftovers, can change. */
  ghost predicate IsBoundary(rules: seq<RouteRule>, left: Leftovers, b: IpAddr) {
    || (exists i :: 0 <= i < |rules| && HasDestination(rules[i]) && BoundaryOf(GetDestination(rules[i]).value, b))
    || (exists e :: e in left.rules && BoundaryOf(e.dst, b))
    || exists e :: e in left.routes && BoundaryOf(e.dst, b)
  }

  /** No boundary lies between b and a, so no network separates them. */
  ghost predicate NearestBoundary(rules: seq<RouteRule>, left: Leftovers, a: IpAddr, b: IpAddr) {
    && IsBoundary(rules, left, b) && b.family == a.family && b.bits <= a.bits
    && forall c :: IsBoundary(rules, left, c) && c.family == a.family && c.bits <= a.bits ==> c.bits <= b.bits
  }

  lemma {:induction false} NearestBoundaryExists(rules: seq<RouteRule>, left: Leftovers, a: IpAddr, b: IpAddr)
    returns (c: IpAddr)
    requires IsBoundary(rules, left, b) && b.family == a.family && b.bits <= a.bits
    ensures NearestBoundary(rules, left, a, c)
    decreases a.bits - b.bits
  {
    if better: IpAddr :| IsBoundary(rules, left, better) && better.family == a.family
                         && b.bits < better.bits <= a.bits
    {
      c := NearestBoundaryExists(rules, left, a, better);
    } else {
      c := b;
    }
  }

  /** A network with no boundary between b and a holds both or neither. */
  lemma SameSideOfNetwork(n: IpNetwork, a: IpAddr, b: IpAddr)
    requires b.family == a.family && b.bits <= a.bits
    requires forall c: IpAddr :: BoundaryOf(n, c) && c.family == a.family && c.bits <= a.bits ==> c.bits <= b.bits
    ensures Contains(n, a) <==> Contains(n, b)
  {
    ContainsIsInterval(n, a);
    ContainsIsInterval(n, b);
    if n.family == a.family {
      if First(n).bits <= a.bits {
        assert BoundaryOf(n, First(n));
      }
      if Past(n) <= a.bits {
        var past: IpAddr := Addr(n.family, Past(n));
        assert BoundaryOf(n, past);
      }
    }
  }

  /** Exactly the same rules match an address and its nearest boundary, */
  lemma SameMatchesAtBoundary(rules: seq<RouteRule>, left: Leftovers, a: IpAddr, b: IpAddr, i: nat)
    requires NearestBoundary(rules, left, a, b) && i < |rules|
    ensures RuleMatches(rules[i], DestIp(a)) <==> RuleMatches(rules[i], DestIp(b))
  {
    if HasDestination(rules[i]) {
      var n := GetDestination(rules[i]).value;
      DestinationCoversMatches(rules[i], a);
      DestinationCoversMatches(rules[i], b);
      assert forall c: IpAddr :: BoundaryOf(n, c) ==> IsBoundary(rules, left, c);
      SameSideOfNetwork(n, a, b);
    }
  }

  /** and the same entries, of rules or leftovers, cover them. */
  lemma SameCoverAtBoundary(rules: seq<RouteRule>, tables: seq<nat>, left: Leftovers, a: IpAddr, b: IpAddr, e: Entry)
    requires NearestBoundary(rules, left, a, b)
    requires e in left.rules || e in left.routes || Owned(rules, tables, |rules|, e)
    ensures Contains(e.dst, a) <==> Contains(e.dst, b)
  {
    assert forall c: IpAddr :: BoundaryOf(e.dst, c) ==> IsBoundary(rules, left, c);
    SameSideOfNetwork(e.dst, a, b);
  }

  /** So the same policy rules are tried. */
  lemma SameTriedAtBoundary(rules: seq<RouteRule>, tables: seq<nat>, left: Leftovers, a: IpAddr, b: IpAddr, p: Entry)
    requires NearestBoundary(rules, left, a, b)
    ensures Tried(rules, tables, left, a, p) <==> Tried(rules, tables, left, b, p)
  {
    forall j: nat ensures MatchesIn(rules, tables, p.table, a, j) <==> MatchesIn(rules, tables, p.table, b, j) {
      if j < |rules| {
        SameMatchesAtBoundary(rules, left, a, b, j);
      }
    }
    forall f | f in left.routes ensures Contains(f.dst, a) <==> Contains(f.dst, b) {
      SameCoverAtBoundary(rules, tables, left, a, b, f);
    }
    if p in left.rules || Owned(rules, tables, |rules|, p) {
      SameCoverAtBoundary(rules, tables, left, a, b, p);
    }
  }

  lemma LeadsFollowsBoundary(rules: seq<RouteRule>, tables: seq<nat>, left: Leftovers, a: IpAddr, b: IpAddr, i: nat)
    requires NearestBoundary(rules, left, a, b) && Leads(rules, tables, left, b, i)
    ensures Leads(rules, tables, left, a, i)
  {
    forall j: nat | j < |rules| ensures RuleMatches(rules[j], DestIp(a)) <==> RuleMatches(rules[j], DestIp(b)) {
      SameMatchesAtBoundary(rules, left, a, b, j);
    }
    forall f | f in left.routes ensures Contains(f.dst, a) <==> Contains(f.dst, b) {
      SameCoverAtBoundary(rules, tables, left, a, b, f);
    }
    forall p ensures Tried(rules, tables, left, a, p) <==> Tried(rules, tables, left, b, p) {
      SameTriedAtBoundary(rules, tables, left, a, b, p);
    }
    forall p | TriedFirst(rules, tables, left, a, p) ensures p.table == tables[i] {
      assert TriedFirst(rules, tables, left, b, p);
    }
  }

  lemma AlignedFollowsBoundary(rules: seq<RouteRule>, tables: seq<nat>, left: Leftovers, a: IpAddr, b: IpAddr)
    requires NearestBoundary(rules, left, a, b) && AlignedAt(rules, tables, left, b)
    ensures AlignedAt(rules, tables, left, a)
  {
    forall i: nat | i < |rules| ensures RuleMatches(rules[i], DestIp(a)) <==> RuleMatches(rules[i], DestIp(b)) {
      SameMatchesAtBoundary(rules, left, a, b, i);
    }
    if i: nat :| IsFirstBest(rules, DestIp(b), i) && rules[i].priority < U32_MAX && Leads(rules, tables, left, b, i) {
      LeadsFollowsBoundary(rules, tables, left, a, b, i);
      assert IsFirstBest(rules, DestIp(a), i) && Leads(rules, tables, left, a, i);
    } else {
      forall p ensures !Tried(rules, tables, left, a, p) {
        SameTriedAtBoundary(rules, tables, left, a, b, p);
      }
    }
  }

  /** The nearest boundary of an address in some network. */
  lemma BoundaryBelow(rules: seq<RouteRule>, left: Leftovers, n: IpNetwork, a: IpAddr) returns (b: IpAddr)
    requires Contains(n, a) && forall c: IpAddr :: BoundaryOf(n, c) ==> IsBoundary(rules, left, c)
    ensures NearestBoundary(rules, left, a, b)
  {
    ContainsIsInterval(n, a);
    assert BoundaryOf(n, First(n));
    b := NearestBoundaryExists(rules, left, a, First(n));
  }

  /** Aligned at every boundary, hence everywhere. */
  lemma AlignedEverywhere(rules: seq<RouteRule>, tables: seq<nat>, left: Leftovers, a: IpAddr)
    requires forall b :: IsBoundary(rules, left, b) ==> AlignedAt(rules, tables, left, b)
    ensures AlignedAt(rules, tables, left, a)
  {
    if j: nat :| j < |rules| && RuleMatches(rules[j], DestIp(a)) {
      DestinationCoversMatches(rules[j], a);
      var b := BoundaryBelow(rules, left, GetDestination(rules[j]).value, a);
      AlignedFollowsBoundary(rules, tables, left, a, b);
    } else if p :| Tried(rules, tables, left, a, p) {
      assert forall c: IpAddr :: BoundaryOf(p.dst, c) ==> IsBoundary(rules, left, c);
      var b := BoundaryBelow(rules, left, p.dst, a);
      AlignedFollowsBoundary(rules, tables, left, a, b);
    }
  }

  /** Kernel and matcher agree on every address if and only if they are aligned at the
      finitely many boundary addresses. */
  lemma AgreesEverywhereIffAligned(rules: seq<RouteRule>, tables: seq<nat>, left: Leftovers, k: KernelState)
    requires Setting(rules, tables, left, k)
    ensures (forall a: IpAddr :: Agrees(rules, tables, k, a)) <==>
            (forall b: IpAddr :: IsBoundary(rules, left, b) ==> AlignedAt(rules, tables, left, b))
  {
    forall a: IpAddr ensures Agrees(rules, tables, k, a) <==> AlignedAt(rules, tables, left, a) {
      AgreesIffAligned(rules, tables, left, k, a);
    }
    if forall b: IpAddr :: IsBoundary(rules, left, b) ==> AlignedAt(rules, tables, left, b) {
      forall a: IpAddr ensures AlignedAt(rules, tables, left, a) {
        AlignedEverywhere(rules, tables, left, a);
      }
    }
  }

  // ---------------------------------------------------------------------------------------
  // Any exact state
  // ---------------------------------------------------------------------------------------

  /** The tracked rules and their tables, in the order of the names. */
  ghost function ActiveRules(byName: ByName, names: seq<string>): (rules: seq<RouteRule>)
    requires forall n :: n in names ==> n in byName
    ensures |rules| == |names| && forall i :: 0 <= i < |names| ==> rules[i] == byName[names[i]]
  {
    seq(|names|, i requires 0 <= i < |names| => byName[names[i]])
  }

  ghost function ActiveTables(ledger: Ledger, names: seq<string>): (tables: seq<nat>)
    requires forall n :: n in names ==> n in ledger
    ensures |tables| == |names| && forall i :: 0 <= i < |names| ==> tables[i] == ledger[names[i]].table
  {
    seq(|names|, i requires 0 <= i < |names| => ledger[names[i]].table)
  }

  lemma OwnedIsDetermined(byName: ByName, ledger: Ledger, names: seq<string>, e: Entry)
    requires Tracked(byName, ledger) && forall n :: n in names <==> n in ledger
    ensures Owned(ActiveRules(byName, names), ActiveTables(ledger, names), |names|, e) <==>
            e in Determined(byName, ledger)
  {
    var rules, tables := ActiveRules(byName, names), ActiveTables(ledger, names);
    if i: nat :| Owns(rules, tables, |names|, i, e) {
      assert names[i] in names && EntryOf(byName, ledger, names[i]) == e;
    }
    if n :| n in ledger && EntryOf(byName, ledger, n) == e {
      var i :| 0 <= i < |names| && names[i] == n;
      assert Owns(rules, tables, |names|, i, e);
    }
  }

  lemma ExactIsPlaced(byName: ByName, left: Leftovers, x: ExecState, names: seq<string>)
    requires Exact(byName, left, x) && forall n :: n in names <==> n in x.ledger
    ensures Placed(ActiveRules(byName, names), ActiveTables(x.ledger, names), left, |names|, x.router.kernel)
  {
    var rules, tables := ActiveRules(byName, names), ActiveTables(x.ledger, names);
    forall e ensures Owned(rules, tables, |names|, e) <==> e in Determined(byName, x.ledger) {
      OwnedIsDetermined(byName, x.ledger, names, e);
    }
    forall i: nat, e | IsFirstOwner(rules, tables, |names|, i, e)
      ensures e in x.router.kernel.routes && x.router.kernel.routes[e] == rules[i].via
    {
      assert names[i] in names && EntryOf(byName, x.ledger, names[i]) == e;
    }
  }

  /** The routing refinement in every exact state, whatever run led to it and whichever tables
      its default and profile rules are in: on the active rules, in any order, kernel and
      matcher agree on every address if and only if, at each of the finitely many boundary
      addresses, no rule matches and no leftover takes it, or the best rule by priority is below
      u32::MAX, every policy rule tried first leads to its table, no matching rule there has a
      longer prefix, and no leftover there comes before it. */
  lemma ExactStateRefinesMatcher(byName: ByName, left: Leftovers, x: ExecState, names: seq<string>)
    requires Exact(byName, left, x) && forall n :: n in names <==> n in x.ledger
    requires CanonicalRoutes(x.router.kernel.routes)
    ensures var rules, tables := ActiveRules(byName, names), ActiveTables(x.ledger, names);
            (forall a: IpAddr :: Agrees(rules, tables, x.router.kernel, a)) <==>
            (forall b: IpAddr :: IsBoundary(rules, left, b) ==> AlignedAt(rules, tables, left, b))
  {
    var rules, tables := ActiveRules(byName, names), ActiveTables(x.ledger, names);
    ExactIsPlaced(byName, left, x, names);
    assert CanonicalRoutes(left.routes) by {
      assert forall e :: e in left.routes ==> e in x.router.kernel.routes;
    }
    forall r | r in rules && HasDestination(r) ensures Canonical(GetDestination(r).value) {
      var i :| 0 <= i < |rules| && rules[i] == r;
      assert EntryFor(rules[i], tables[i]) in x.router.kernel.routes;
    }
    AgreesEverywhereIffAligned(rules, tables, left, x.router.kernel);
  }

  /** So at the end of every orderly run, whatever the kernel refused in it. */
  lemma OrderlyRunRefinesMatcher(left: Leftovers, s: EngineState, ops: seq<Op>, names: seq<string>)
    requires Workable(s) && Exact(Named(s.config), left, s.exec) && RealRun(s, ops) && AlwaysOrderly(left, s, ops)
    requires forall n :: n in names <==> n in Run(s, ops).exec.ledger
    requires CanonicalRoutes(Run(s, ops).exec.router.kernel.routes)
    ensures var t := Run(s, ops);
            && Tracked(Named(t.config), t.exec.ledger)
            && var rules, tables := ActiveRules(Named(t.config), names), ActiveTables(t.exec.ledger, names);
               (forall a: IpAddr :: Agrees(rules, tables, t.exec.router.kernel, a)) <==>
               (forall b: IpAddr :: IsBoundary(rules, left, b) ==> AlignedAt(rules, tables, left, b))
  {
    ExactIffOrderly(left, s, ops);
    ExactAtTheEnd(left, s, ops);
    ExactStateRefinesMatcher(Named(Run(s, ops).config), left, Run(s, ops).exec, names);
  }

  // ---------------------------------------------------------------------------------------
  // What applying the default rules installs
  // ---------------------------------------------------------------------------------------

  /** Distinct names, and every CIDR or IP rule valid with its host bits zero. */
  ghost predicate WellFormed(rules: seq<RouteRule>) {
    && DistinctNames(rules)
    && forall r :: r in rules && HasDestination(r) ==> Installable(r) && Canonical(GetDestination(r).value)
  }

  function AllIn(rules: seq<RouteRule>, table: nat): (tables: seq<nat>)
    ensures |tables| == |rules| && forall i :: 0 <= i < |rules| ==> tables[i] == table
  {
    seq(|rules|, i => table)
  }

  /** The kernel k' is k after an application of the rule in the table. */
  ghost predicate Gains(k: KernelState, k': KernelState, rule: RouteRule, table: nat) {
    if HasDestination(rule) then
      var e := EntryFor(rule, table);
      && k'.rules == k.rules + {e}
      && k'.routes == (if e in k.routes then k.routes else k.routes[e := rule.via])
    else k'.rules == k.rules && k'.routes == k.routes
  }

  /** One application without faults of a rule that is valid if it has a destination. */
  lemma ApplyGains(x: ExecState, rule: RouteRule, table: nat)
    requires Faultless(x.router.kernel) && !x.router.dryRun && (HasDestination(rule) ==> Installable(rule))
    ensures var y := Apply(x, rule, table).0;
            && Faultless(y.router.kernel) && !y.router.dryRun
            && y.ledger.Keys <= x.ledger.Keys + {rule.name}
            && Gains(x.router.kernel, y.router.kernel, rule, table)
  {
    ApplyOutcome(x, rule, table);
  }

  lemma OwnedOneMore(rules: seq<RouteRule>, tables: seq<nat>, n: nat, e: Entry)
    requires n < |rules| == |tables|
    ensures Owned(rules, tables, n + 1, e) <==>
            Owned(rules, tables, n, e) || (HasDestination(rules[n]) && e == EntryFor(rules[n], tables[n]))
  {
    var m := n + 1;
    if i: nat :| Owns(rules, tables, n, i, e) {
      assert Owns(rules, tables, m, i, e);
    }
    if i: nat :| Owns(rules, tables, m, i, e) {
      assert i < n ==> Owns(rules, tables, n, i, e);
    }
    if HasDestination(rules[n]) && e == EntryFor(rules[n], tables[n]) {
      assert Owns(rules, tables, m, n, e);
    }
  }

  lemma PlaceOneMore(rules: seq<RouteRule>, tables: seq<nat>, left: Leftovers, n: nat, k: KernelState, k': KernelState)
    requires n < |rules| && Placed(rules, tables, left, n, k) && Gains(k, k', rules[n], tables[n])
    ensures Placed(rules, tables, left, n + 1, k')
  {
    forall e
      ensures Owned(rules, tables, n + 1, e) <==>
              Owned(rules, tables, n, e) || (HasDestination(rules[n]) && e == EntryFor(rules[n], tables[n]))
    {
      OwnedOneMore(rules, tables, n, e);
    }
    forall i: nat, e | IsFirstOwner(rules, tables, n + 1, i, e) && e !in left.routes
      ensures e in k'.routes && k'.routes[e] == rules[i].via
    {
      FirstOwnerKeepsRoute(rules, tables, left, n, k, k', i, e);
    }
  }

  lemma FirstOwnerKeepsRoute(rules: seq<RouteRule>, tables: seq<nat>, left: Leftovers, n: nat, k: KernelState,
      k': KernelState, i: nat, e: Entry)
    requires n < |rules| && Placed(rules, tables, left, n, k) && Gains(k, k', rules[n], tables[n])
    requires IsFirstOwner(rules, tables, n + 1, i, e) && e !in left.routes
    ensures e in k'.routes && k'.routes[e] == rules[i].via
  {
    assert forall j: nat :: Owns(rules, tables, n, j, e) ==> Owns(rules, tables, n + 1, j, e) && j < n;
    if i < n {
      forall j: nat | j < i ensures !Owns(rules, tables, n, j, e) {
        assert !Owns(rules, tables, n + 1, j, e);
      }
      assert IsFirstOwner(rules, tables, n, i, e);
    } else {
      assert !Owned(rules, tables, n, e);
    }
  }

  lemma {:induction false} DefaultsInstall(x: ExecState, rules: seq<RouteRule>, table: nat, left: Leftovers,
      n: nat)
    requires WellFormed(rules) && Faultless(x.router.kernel) && !x.router.dryRun
    requires Placed(rules, AllIn(rules, table), left, n, x.router.kernel)
    requires forall i :: n <= i < |rules| ==> rules[i].name !in x.ledger
    ensures Placed(rules, AllIn(rules, table), left, |rules|, ApplyDefaults(x, rules[n..], table).router.kernel)
    decreases |rules| - n
  {
    if n < |rules| {
      var next := Apply(x, rules[n], table).0;
      assert rules[n..][1..] == rules[n + 1..];
      assert rules[n] in rules;
      ApplyGains(x, rules[n], table);
      PlaceOneMore(rules, AllIn(rules, table), left, n, x.router.kernel, next.router.kernel);
      DefaultsInstall(next, rules, table, left, n + 1);
    } else {
      assert rules[n..] == [];
    }
  }

  /** An engine whose default rules are about to be applied, without faults, to a kernel that
      holds only what is left over. */
  ghost predicate CleanStart(left: Leftovers, s: EngineState) {
    && Faultless(s.exec.router.kernel) && !s.exec.router.dryRun && s.exec.ledger == map[]
    && s.exec.router.kernel.rules == left.rules && s.exec.router.kernel.routes == left.routes
    && CanonicalRoutes(left.routes)
    && WellFormed(s.config.defaultRules)
  }

  /** Applied to such a kernel the default rules are placed in one table. */
  lemma CleanStartInstalls(left: Leftovers, s: EngineState, interface: string)
    requires CleanStart(left, s)
    ensures var rules := s.config.defaultRules;
            Setting(rules, AllIn(rules, TableFor(s, interface).1), left,
                    ApplyDefaultRules(s, interface).exec.router.kernel)
  {
    var rules := s.config.defaultRules;
    assert rules[0..] == rules;
    assert forall e :: !Owned(rules, AllIn(rules, TableFor(s, interface).1), 0, e);
    DefaultsInstall(s.exec, rules, TableFor(s, interface).1, left, 0);
  }

  /** The routing refinement, exactly: after the default rules are applied to such a kernel it
      agrees with the matcher on every address if and only if, at each of the finitely many
      boundary addresses of the configured networks and of the leftovers, no rule matches, or
      the best rule by priority is below u32::MAX, has a longest prefix and comes before the
      leftovers in its table. */
  lemma KernelRefinesMatcher(left: Leftovers, s: EngineState, interface: string)
    requires CleanStart(left, s)
    ensures var rules := s.config.defaultRules;
            var tables := AllIn(rules, TableFor(s, interface).1);
            var k := ApplyDefaultRules(s, interface).exec.router.kernel;
            (forall a: IpAddr :: Agrees(rules, tables, k, a)) <==>
            (forall b: IpAddr :: IsBoundary(rules, left, b) ==> AlignedAt(rules, tables, left, b))
  {
    var rules := s.config.defaultRules;
    CleanStartInstalls(left, s, interface);
    AgreesEverywhereIffAligned(rules, AllIn(rules, TableFor(s, interface).1), left,
                               ApplyDefaultRules(s, interface).exec.router.kernel);
  }

  /** The same of the whole startup: with at least one configured interface up, the kernel it
      leaves routes by the matcher's answers exactly under that condition. */
  lemma StartupRefinesMatcher(left: Leftovers, s: EngineState, infos: seq<InterfaceInfo>)
    requires CleanStart(left, s) && FirstUp(s.config, infos).Some?
    ensures var rules := s.config.defaultRules;
            var tables := AllIn(rules, TableFor(s, FirstUp(s.config, infos).value).1);
            var k := ApplyInitial(s, infos).exec.router.kernel;
            (forall a: IpAddr :: Agrees(rules, tables, k, a)) <==>
            (forall b: IpAddr :: IsBoundary(rules, left, b) ==> AlignedAt(rules, tables, left, b))
  {
    StartupInstallsOnce(s, infos);
    KernelRefinesMatcher(left, s, FirstUp(s.config, infos).value);
  }

  /** A strictly narrower destination always has a strictly smaller priority value, and none
      has u32::MAX. */
  ghost predicate NarrowerFirst(rules: seq<RouteRule>) {
    && (forall i :: 0 <= i < |rules| ==> rules[i].priority < U32_MAX)
    && forall i, j :: 0 <= i < |rules| && 0 <= j < |rules| && HasDestination(rules[i]) && HasDestination(rules[j])
                      && StrictlyNarrower(GetDestination(rules[i]).value, GetDestination(rules[j]).value) ==>
         rules[i].priority < rules[j].priority
  }

  /** No leftover route is in the table, and no leftover policy rule leads to a leftover route. */
  ghost predicate OutOfTheWay(left: Leftovers, table: nat) {
    && (forall f :: f in left.routes ==> f.table != table)
    && forall p, f :: p in left.rules && f in left.routes ==> p.table != f.table
  }

  /** Under that discipline, with the leftovers out of the way, the kernel forwards every address
      as the matcher says. */
  lemma NarrowerFirstRefines(left: Leftovers, s: EngineState, interface: string, a: IpAddr)
    requires CleanStart(left, s) && NarrowerFirst(s.config.defaultRules)
    requires OutOfTheWay(left, TableFor(s, interface).1)
    ensures var rules := s.config.defaultRules;
            Agrees(rules, AllIn(rules, TableFor(s, interface).1), ApplyDefaultRules(s, interface).exec.router.kernel, a)
  {
    var rules := s.config.defaultRules;
    var tables := AllIn(rules, TableFor(s, interface).1);
    CleanStartInstalls(left, s, interface);
    NarrowerFirstIsAligned(rules, tables, left, TableFor(s, interface).1, a);
    AgreesIffAligned(rules, tables, left, ApplyDefaultRules(s, interface).exec.router.kernel, a);
  }

  ghost predicate OneTable(rules: seq<RouteRule>, tables: seq<nat>, table: nat) {
    |tables| == |rules| && forall j :: 0 <= j < |rules| ==> tables[j] == table
  }

  /** Then a policy rule is tried only in this table, and only if some rule matches. */
  lemma TriedInOneTable(rules: seq<RouteRule>, tables: seq<nat>, left: Leftovers, table: nat, a: IpAddr, p: Entry)
    requires OneTable(rules, tables, table) && OutOfTheWay(left, table) && Tried(rules, tables, left, a, p)
    ensures p.table == table && exists j :: 0 <= j < |rules| && RuleMatches(rules[j], DestIp(a))
  {
    if p !in left.rules {
      var i: nat :| Owns(rules, tables, |rules|, i, p);
      assert p.table == tables[i];
    }
    var j: nat :| MatchesIn(rules, tables, p.table, a, j);
  }

  lemma NarrowerFirstIsAligned(rules: seq<RouteRule>, tables: seq<nat>, left: Leftovers, table: nat, a: IpAddr)
    requires NarrowerFirst(rules) && OneTable(rules, tables, table) && OutOfTheWay(left, table)
    ensures AlignedAt(rules, tables, left, a)
  {
    forall p | Tried(rules, tables, left, a, p)
      ensures p.table == table && exists j :: 0 <= j < |rules| && RuleMatches(rules[j], DestIp(a))
    {
      TriedInOneTable(rules, tables, left, table, a, p);
    }
    if j: nat :| j < |rules| && RuleMatches(rules[j], DestIp(a)) {
      var i := FirstBestExists(rules, a, j);
      BestIsLongest(rules, tables, a, i);
      assert Leads(rules, tables, left, a, i);
    }
  }

  lemma LongerIsNarrower(n: IpNetwork, m: IpNetwork, a: IpAddr)
    requires Contains(n, a) && Contains(m, a) && m.prefix < n.prefix
    ensures StrictlyNarrower(n, m)
  {
    FirstIsInside(n);
    SharedAddressNests(n, m, a, First(n));
  }

  lemma BestIsLongest(rules: seq<RouteRule>, tables: seq<nat>, a: IpAddr, i: nat)
    requires NarrowerFirst(rules) && IsFirstBest(rules, DestIp(a), i) && |tables| == |rules|
    ensures HasDestination(rules[i]) && LeadsRules(rules, tables, a, i)
  {
    forall l | 0 <= l < |rules| && HasDestination(rules[l]) && RuleMatches(rules[l], DestIp(a))
      ensures GetDestination(rules[l]).value.prefix <= GetDestination(rules[i]).value.prefix
    {
      var n, m := GetDestination(rules[l]).value, GetDestination(rules[i]).value;
      DestinationCoversMatches(rules[l], a);
      DestinationCoversMatches(rules[i], a);
      if m.prefix < n.prefix {
        LongerIsNarrower(n, m, a);
      }
    }
  }

  /** Without it they can differ: a default route of better priority hides a host rule from
      the matcher, but not from the kernel's longest-prefix choice. */
  lemma BroaderFirstDisagrees(s: EngineState, interface: string, host: IpAddr)
    requires CleanStart(NOTHING_LEFT, s) && host.family == V4
    requires s.config.defaultRules == [
               RouteRule("all", Cidr(Network(V4, 0, 0)), "wlan0", 1),
               RouteRule("host", Ip(host), "eth0", 2)]
    ensures var rules := s.config.defaultRules;
            !Agrees(rules, AllIn(rules, TableFor(s, interface).1),
                    ApplyDefaultRules(s, interface).exec.router.kernel, host)
  {
    var rules := s.config.defaultRules;
    var tables := AllIn(rules, TableFor(s, interface).1);
    CleanStartInstalls(NOTHING_LEFT, s, interface);
    AgreesIffAligned(rules, tables, NOTHING_LEFT, ApplyDefaultRules(s, interface).exec.router.kernel, host);
    BroaderIsNotAligned(rules, tables, host);
  }

  lemma BroaderIsNotAligned(rules: seq<RouteRule>, tables: seq<nat>, host: IpAddr)
    requires host.family == V4 && |tables| == 2 && tables[0] == tables[1]
    requires rules == [RouteRule("all", Cidr(Network(V4, 0, 0)), "wlan0", 1), RouteRule("host", Ip(host), "eth0", 2)]
    ensures !AlignedAt(rules, tables, NOTHING_LEFT, host)
  {
    DivRange(host.bits, 0, Block(Network(V4, 0, 0)));
    assert RuleMatches(rules[0], DestIp(host)) && RuleMatches(rules[1], DestIp(host));
    assert IsFirstBest(rules, DestIp(host), 0) && !LeadsRules(rules, tables, host, 0);
    AlignedAtBest(rules, tables, NOTHING_LEFT, host, 0);
  }

  /** A leftover in the place of a rule's route makes them differ too, */
  lemma LeftoverDisagrees(s: EngineState, interface: string, host: IpAddr, rule: RouteRule, before: string)
    requires rule == RouteRule("host", Ip(host), "eth0", 1) && before != "eth0" && s.config.defaultRules == [rule]
    requires CleanStart(Leftovers({}, map[EntryFor(rule, TableFor(s, interface).1) := before]), s)
    ensures var rules := s.config.defaultRules;
            !Agrees(rules, AllIn(rules, TableFor(s, interface).1),
                    ApplyDefaultRules(s, interface).exec.router.kernel, host)
  {
    var rules := s.config.defaultRules;
    var tables := AllIn(rules, TableFor(s, interface).1);
    var left := Leftovers({}, map[EntryFor(rule, TableFor(s, interface).1) := before]);
    CleanStartInstalls(left, s, interface);
    AgreesIffAligned(rules, tables, left, ApplyDefaultRules(s, interface).exec.router.kernel, host);
    HostNetworkContainsOnly(host, host);
    assert IsFirstBest(rules, DestIp(host), 0);
    assert EntryFor(rules[0], tables[0]) in left.routes;
    AlignedAtBest(rules, tables, left, host, 0);
  }

  /** and so does the same rule left over in another table: its policy rule is as good as the new
      one, and leads to the stale route. */
  lemma StaleTableDisagrees(s: EngineState, interface: string, host: IpAddr, rule: RouteRule, stale: Entry,
      before: string)
    requires rule == RouteRule("host", Ip(host), "eth0", 1) && s.config.defaultRules == [rule]
    requires stale == EntryFor(rule, stale.table) && stale.table != TableFor(s, interface).1
    requires CleanStart(Leftovers({stale}, map[stale := before]), s)
    ensures var rules := s.config.defaultRules;
            !Agrees(rules, AllIn(rules, TableFor(s, interface).1),
                    ApplyDefaultRules(s, interface).exec.router.kernel, host)
  {
    var tables, left := AllIn([rule], TableFor(s, interface).1), Leftovers({stale}, map[stale := before]);
    CleanStartInstalls(left, s, interface);
    AgreesIffAligned([rule], tables, left, ApplyDefaultRules(s, interface).exec.router.kernel, host);
    StaleIsNotAligned(rule, tables, stale, before, host);
  }

  lemma StaleIsNotAligned(rule: RouteRule, tables: seq<nat>, stale: Entry, before: string, host: IpAddr)
    requires rule == RouteRule("host", Ip(host), "eth0", 1) && |tables| == 1
    requires stale == EntryFor(rule, stale.table) && stale.table != tables[0]
    ensures !AlignedAt([rule], tables, Leftovers({stale}, map[stale := before]), host)
  {
    var left := Leftovers({stale}, map[stale := before]);
    HostNetworkContainsOnly(host, host);
    assert IsFirstBest([rule], DestIp(host), 0);
    assert stale in left.routes && TriedFirst([rule], tables, left, host, stale);
    AlignedAtBest([rule], tables, left, host, 0);
  }
}
