/** What a run leaves in the kernel, and what the next start cleans up
    (src/engine/dispatcher.rs, src/router/manager.rs). */
module Restart {
  import opened Wrappers
  import opened Net
  import opened Config
  import opened Kernel
  import opened Rules
  import opened Executor
  import opened State
  import opened Indices
  import opened Dispatcher
  import opened Runs
  import opened LedgerInvariants
  import opened RuleNames
  import opened Extending
  import opened DefaultRules
  import opened LedgerRuns
  import opened Foresight

  /** Every kernel entry is in a table base .. base + MAX_INTERFACES - 1. */
  ghost predicate TablesWithin(x: ExecState) {
    && (forall e :: e in x.router.kernel.rules ==> InRange(x, e.table))
    && (forall e :: e in x.router.kernel.routes ==> InRange(x, e.table))
  }

  predicate InRange(x: ExecState, table: nat) {
    x.router.base <= table < x.router.base + MAX_INTERFACES
  }

  lemma ApplyKeepsTables(x: ExecState, rule: RouteRule, table: nat)
    requires TablesWithin(x) && InRange(x, table)
    ensures TablesWithin(Apply(x, rule, table).0) && Apply(x, rule, table).0.router.base == x.router.base
  {
  }

  lemma RemoveKeepsTables(x: ExecState, rule: RouteRule, table: nat)
    requires TablesWithin(x)
    ensures TablesWithin(Remove(x, rule, table).0) && Remove(x, rule, table).0.router.base == x.router.base
  {
  }

  lemma {:induction false} DefaultsKeepTables(x: ExecState, rules: seq<RouteRule>, table: nat)
    requires TablesWithin(x) && InRange(x, table)
    ensures TablesWithin(ApplyDefaults(x, rules, table)) && ApplyDefaults(x, rules, table).router.base == x.router.base
    decreases |rules|
  {
    if rules != [] {
      ApplyKeepsTables(x, rules[0], table);
      DefaultsKeepTables(if rules[0].name in x.ledger then x else Apply(x, rules[0], table).0, rules[1..], table);
    }
  }

  lemma {:induction false} ProfileKeepsTables(x: ExecState, rules: seq<RouteRule>, table: nat)
    requires TablesWithin(x) && InRange(x, table)
    ensures TablesWithin(ApplyProfile(x, rules, table)) && ApplyProfile(x, rules, table).router.base == x.router.base
    decreases |rules|
  {
    if rules != [] {
      ApplyKeepsTables(x, rules[0], table);
      ProfileKeepsTables(Apply(x, rules[0], table).0, rules[1..], table);
    }
  }

  lemma {:induction false} RemovalsKeepTables(x: ExecState, byName: map<string, RouteRule>, tables: Ledger,
      order: seq<string>)
    requires TablesWithin(x)
    ensures var y := RemoveAll(x, byName, tables, order);
            TablesWithin(y) && y.router.base == x.router.base
    decreases |order|
  {
    if order != [] {
      var n := order[0];
      if n in byName && n in tables {
        RemoveKeepsTables(x, byName[n], tables[n].table);
        RemovalsKeepTables(Remove(x, byName[n], tables[n].table).0, byName, tables, order[1..]);
      } else {
        RemovalsKeepTables(x, byName, tables, order[1..]);
      }
    }
  }

  ghost predicate FewIndices(s: EngineState) {
    forall n :: n in s.indices ==> s.indices[n] < MAX_INTERFACES
  }

  lemma DefaultRulesKeepTables(s: EngineState, interface: string)
    requires TablesWithin(s.exec) && FewIndices(ApplyDefaultRules(s, interface))
    ensures TablesWithin(ApplyDefaultRules(s, interface).exec)
    ensures ApplyDefaultRules(s, interface).exec.router.base == s.exec.router.base
  {
    if s.config.defaultRules != [] {
      var (s1, table) := TableFor(s, interface);
      assert interface in s1.indices && ApplyDefaultRules(s, interface).indices == s1.indices;
      DefaultsKeepTables(s.exec, s.config.defaultRules, table);
    }
  }

  lemma ForInterfaceKeepsTables(s: EngineState, interface: string, ssid: Option<string>)
    requires TablesWithin(s.exec) && FewIndices(ApplyForInterface(s, interface, ssid))
    ensures TablesWithin(ApplyForInterface(s, interface, ssid).exec)
    ensures ApplyForInterface(s, interface, ssid).exec.router.base == s.exec.router.base
  {
    if ssid.Some? && ProfileFor(s.config.wifiProfiles, ssid.value).Some? {
      var (s1, table) := TableFor(s, interface);
      assert interface in s1.indices && ApplyForInterface(s, interface, ssid).indices == s1.indices;
      ProfileKeepsTables(s.exec, ProfileFor(s.config.wifiProfiles, ssid.value).value.rules, table);
    } else {
      DefaultRulesKeepTables(s, interface);
    }
  }

  lemma EventKeepsTables(s: EngineState, event: NetworkEvent, order: seq<string>)
    requires TablesWithin(s.exec) && FewIndices(HandleEvent(s, event, order))
    ensures TablesWithin(HandleEvent(s, event, order).exec)
    ensures HandleEvent(s, event, order).exec.router.base == s.exec.router.base
  {
    if s.phase == Running {
      var s1 := s.(interfaces := ApplyEvent(s.interfaces, event));
      match event
      case InterfaceChanged(interface, change) =>
        if TakesDown(event) {
          RemovalsKeepTables(s.exec, RulesMap(AllRules(s.config)), s.exec.ledger, order);
        } else if change == Up && interface in s1.interfaces && interface !in s1.ssids {
          DefaultRulesKeepTables(s1, interface);
        }
      case WifiConnected(interface, ssid) =>
        ForInterfaceKeepsTables(s1.(ssids := s1.ssids[interface := ssid]), interface, Some(ssid));
      case WifiDisconnected(interface, _) =>
        DefaultRulesKeepTables(s1.(ssids := s1.ssids - {interface}), interface);
      case AddressChanged(interface, _, _) =>
        ForInterfaceKeepsTables(s1, interface, if interface in s1.ssids then Some(s1.ssids[interface]) else None);
      case RouteChanged(_) =>
    }
  }

  /** The run never assigns an index of 32 or more. */
  ghost predicate AlwaysFewIndices(s: EngineState, ops: seq<Op>)
    decreases |ops|
  {
    FewIndices(s) && (ops == [] || AlwaysFewIndices(StepOf(s, ops[0]), ops[1..]))
  }

  lemma StepKeepsTables(s: EngineState, op: Op)
    requires TablesWithin(s.exec) && FewIndices(StepOf(s, op))
    ensures TablesWithin(StepOf(s, op).exec) && StepOf(s, op).exec.router.base == s.exec.router.base
  {
    if op.Event? {
      EventKeepsTables(s, op.event, op.order);
    }
  }

  /** Whatever fails, reloads or stops in it, a run of at most 32 indices leaves entries only
      in the 32 tables from its base on. */
  lemma {:induction false} RunKeepsTables(s: EngineState, ops: seq<Op>)
    requires TablesWithin(s.exec) && AlwaysFewIndices(s, ops)
    ensures TablesWithin(Run(s, ops).exec) && Run(s, ops).exec.router.base == s.exec.router.base
    decreases |ops|
  {
    if ops != [] {
      StepKeepsTables(s, ops[0]);
      RunKeepsTables(StepOf(s, ops[0]), ops[1..]);
    }
  }

  // ---------------------------------------------------------------------------------------
  // The cleanup
  // ---------------------------------------------------------------------------------------

  /** A cleanup of the router's kernel whose own requests all went through. */
  ghost predicate QuietCleanup(found: RouterState, cleaned: KernelState) {
    && found.CanFlush() && CleanupDone(found.kernel, cleaned, found)
    && QuietBetween(found.kernel, found.kernel.calls, cleaned.calls)
  }

  /** It takes the policy rules and the IPv4 routes of the tables it knows, and nothing else. */
  predicate RuleSurvives(found: RouterState, e: Entry) {
    e in found.kernel.rules && !Cleaned(found.base, e.table)
  }

  predicate RouteSurvives(found: RouterState, e: Entry) {
    e in found.kernel.routes && (e.dst.family == V6 || !Cleaned(found.base, e.table))
  }

  /** The tables it knows, in numbers: 32 from the base on, and 200 to 231. */
  lemma CleanedTables(base: nat, table: nat)
    ensures Cleaned(base, table) <==> base <= table < base + 32 || 200 <= table < 232
  {
  }

  /** What the cleanup leaves, exactly, whatever it finds: the slate is clean if and only if
      every entry was in one of its tables, 32 from the base on or 200 to 231, and no route was
      IPv6. */
  lemma CleanSlateIff(found: RouterState, cleaned: KernelState)
    requires QuietCleanup(found, cleaned)
    ensures forall e :: e in cleaned.rules <==> RuleSurvives(found, e)
    ensures forall e :: e in cleaned.routes <==> RouteSurvives(found, e)
    ensures forall e :: e in cleaned.routes ==> cleaned.routes[e] == found.kernel.routes[e]
    ensures cleaned.rules == {} && cleaned.routes == map[] <==>
            && (forall e :: e in found.kernel.rules ==>
                  found.base <= e.table < found.base + 32 || 200 <= e.table < 232)
            && (forall e :: e in found.kernel.routes ==>
                  && (found.base <= e.table < found.base + 32 || 200 <= e.table < 232)
                  && e.dst.family == V4)
  {
    forall table: nat ensures Cleaned(found.base, table) <==>
                              found.base <= table < found.base + 32 || 200 <= table < 232
    {
      CleanedTables(found.base, table);
    }
  }

  /** A rule applied at startup in a table that the next start does not clean stays in the kernel,
      policy rule and route. */
  lemma UncleanedTableStays(s: EngineState, info: InterfaceInfo, rule: RouteRule, found: RouterState,
      cleaned: KernelState)
    requires s.config.defaultRules == [rule] && Installable(rule) && info.isUp && info.name in s.config.interfaces
    requires FreshOver(NOTHING_LEFT, s) && Faultless(s.exec.router.kernel) && !s.exec.router.dryRun
    requires found.kernel == ApplyInitial(s, [info]).exec.router.kernel && QuietCleanup(found, cleaned)
    requires !Cleaned(found.base, TableFor(s, info.name).1)
    ensures var e := EntryFor(rule, TableFor(s, info.name).1);
            e in cleaned.rules && e in cleaned.routes && cleaned.routes[e] == rule.via
  {
    var e := EntryFor(rule, TableFor(s, info.name).1);
    assert [info][1..] == [];
    OnlyRuleApplied(s.exec, rule, TableFor(s, info.name).1);
    assert ApplyInitial(s, [info]) == ApplyInitial(ApplyDefaultRules(s, info.name), []);
    ApplyOutcome(s.exec, rule, e.table);
    assert RuleSurvives(found, e) && RouteSurvives(found, e);
    CleanSlateIff(found, cleaned);
  }

  /** So does an IPv4 rule of a run from base 100 when the daemon starts again from base 150, */
  lemma OtherBaseLeavesEntries(s: EngineState, info: InterfaceInfo, rule: RouteRule, found: RouterState,
      cleaned: KernelState)
    requires s.config == Config([info.name], [], [rule]) && Installable(rule) && info.isUp
    requires GetDestination(rule).value.family == V4
    requires FreshOver(NOTHING_LEFT, s) && Faultless(s.exec.router.kernel) && !s.exec.router.dryRun
    requires s.exec.router.base == 100 && s.indices == NewIndices(s.config.interfaces)
    requires found.kernel == ApplyInitial(s, [info]).exec.router.kernel && found.base == 150
    requires QuietCleanup(found, cleaned)
    ensures EntryFor(rule, 100) in cleaned.rules && EntryFor(rule, 100) in cleaned.routes
  {
    assert [info.name][..0] == [];
    assert NewIndices([info.name]) == NewIndices([info.name][..0])[info.name := 0];
    UncleanedTableStays(s, info, rule, found, cleaned);
  }

  /** and so does one of the thirty-third interface when it starts again from the same base. */
  lemma ThirtyThirdInterfaceLeavesEntries(s: EngineState, info: InterfaceInfo, rule: RouteRule, found: RouterState,
      cleaned: KernelState)
    requires s.config.defaultRules == [rule] && Installable(rule) && GetDestination(rule).value.family == V4
    requires |s.config.interfaces| == 33 && s.config.interfaces[32] == info.name && info.isUp
    requires FreshOver(NOTHING_LEFT, s) && Faultless(s.exec.router.kernel) && !s.exec.router.dryRun
    requires s.exec.router.base == 100 && s.indices == NewIndices(s.config.interfaces)
    requires found.kernel == ApplyInitial(s, [info]).exec.router.kernel && found.base == 100
    requires QuietCleanup(found, cleaned)
    ensures EntryFor(rule, 132) in cleaned.rules && EntryFor(rule, 132) in cleaned.routes
  {
    assert NewIndices(s.config.interfaces)[info.name] == 32;
    UncleanedTableStays(s, info, rule, found, cleaned);
  }

  /** With the same base and few indices: whatever failed in the run before it, the cleanup
      leaves exactly the run's IPv6 routes. The tables it touches are far from the reserved ones. */
  lemma RestartLeavesOnlyIPv6Routes(s: EngineState, ops: seq<Op>, found: RouterState, cleaned: KernelState)
    requires AcceptsBase(s.exec.router.base) && TablesWithin(s.exec) && AlwaysFewIndices(s, ops)
    requires found.base == s.exec.router.base && found.kernel == Run(s, ops).exec.router.kernel
    requires QuietCleanup(found, cleaned)
    ensures cleaned.rules == {}
    ensures forall e :: e in cleaned.routes <==> e in Run(s, ops).exec.router.kernel.routes && e.dst.family == V6
    ensures forall table :: Cleaned(s.exec.router.base, table) ==> TableIdToU8(table).Ok? && table < 253
  {
    RunKeepsTables(s, ops);
    CleanSlateIff(found, cleaned);
    forall e | e in found.kernel.rules || e in found.kernel.routes ensures Cleaned(found.base, e.table) {
      assert InRange(Run(s, ops).exec, e.table);
    }
  }

  // ---------------------------------------------------------------------------------------
  // The next startup
  // ---------------------------------------------------------------------------------------

  /** Whatever was found, the startup over what the cleanup leaves is exact besides it if and only
      if it leaves no stray policy rule and gives every tracked rule an entry of its own that did
      not survive. */
  lemma StartupAfterCleanupIsExact(next: EngineState, found: RouterState, infos: seq<InterfaceInfo>)
    requires QuietCleanup(found, next.exec.router.kernel)
    requires Workable(next) && next.exec.ledger == map[] && next.ssids == map[]
    ensures var k, t := next.exec.router.kernel, ApplyInitial(next, infos);
            && Tracked(Named(next.config), t.exec.ledger)
            && (Exact(Named(next.config), Leftovers(k.rules, k.routes), t.exec) <==>
                && NoStrays(Named(next.config), next.exec, t.exec) && OneEach(Named(next.config), t.exec.ledger)
                && forall e :: e in Determined(Named(next.config), t.exec.ledger) ==>
                     !RuleSurvives(found, e) && !RouteSurvives(found, e))
  {
    var k := next.exec.router.kernel;
    CleanSlateIff(found, k);
    StartupKeepsExact(Leftovers(k.rules, k.routes), next, infos);
  }

  /** From one run to the next, with the same base and few indices: if and only if none of its
      IPv6 rules finds a leftover in its place. */
  lemma RestartIsExact(s: EngineState, ops: seq<Op>, next: EngineState, found: RouterState, infos: seq<InterfaceInfo>)
    requires AcceptsBase(s.exec.router.base) && TablesWithin(s.exec) && AlwaysFewIndices(s, ops)
    requires found.base == s.exec.router.base && found.kernel == Run(s, ops).exec.router.kernel
    requires QuietCleanup(found, next.exec.router.kernel)
    requires Workable(next) && next.exec.ledger == map[] && next.ssids == map[]
    ensures var left, t := Leftovers({}, next.exec.router.kernel.routes), ApplyInitial(next, infos);
            && Tracked(Named(next.config), t.exec.ledger)
            && (Exact(Named(next.config), left, t.exec) <==>
                && NoStrays(Named(next.config), next.exec, t.exec) && OneEach(Named(next.config), t.exec.ledger)
                && forall e :: e in Determined(Named(next.config), t.exec.ledger) && e.dst.family == V6 ==>
                     e !in left.routes)
  {
    RestartLeavesOnlyIPv6Routes(s, ops, found, next.exec.router.kernel);
    StartupKeepsExact(Leftovers({}, next.exec.router.kernel.routes), next, infos);
  }

  /** Without faults the next startup can be foreseen: it is exact if and only if no interface
      qualifies, or in the first one's table no installable default rule has the place of an entry
      that survived the cleanup, and no two have one place. */
  lemma RestartIsForeseen(next: EngineState, found: RouterState, infos: seq<InterfaceInfo>)
    requires QuietCleanup(found, next.exec.router.kernel) && Faultless(next.exec.router.kernel)
    requires Workable(next) && next.exec.ledger == map[] && next.ssids == map[]
    ensures var k, rules := next.exec.router.kernel, next.config.defaultRules;
            Exact(Named(next.config), Leftovers(k.rules, k.routes), ApplyInitial(next, infos).exec) <==>
            FirstUp(next.config, infos).None? ||
            var table := TableFor(next, FirstUp(next.config, infos).value).1;
            && (forall r :: r in rules && Installable(r) ==>
                  !RuleSurvives(found, EntryFor(r, table)) && !RouteSurvives(found, EntryFor(r, table)))
            && forall r, q :: r in rules && q in rules && Installable(r) && Installable(q) && SameSlot(r, q) ==> r == q
  {
    var k := next.exec.router.kernel;
    CleanSlateIff(found, k);
    StartupIsForeseen(Leftovers(k.rules, k.routes), next, infos);
  }
}
