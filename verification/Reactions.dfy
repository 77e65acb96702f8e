/** What each kind of event makes of the ledger and the kernel (src/engine/dispatcher.rs). */
module Reactions {
  import opened Wrappers
  import opened Config
  import opened Kernel
  import opened Rules
  import opened Executor
  import opened State
  import opened Dispatcher
  import opened LedgerInvariants
  import opened RuleNames
  import opened Extending
  import opened Draining
  import opened DefaultRules
  import opened Runs
  import opened LedgerRuns

  /** The rules of the profile that the interface's SSID has. */
  function ProfileNow(s: EngineState, event: NetworkEvent): Option<seq<RouteRule>>
    requires !event.RouteChanged?
  {
    var ssid := SsidNow(s, event);
    if ssid.Some? && ProfileFor(s.config.wifiProfiles, ssid.value).Some? then
      Some(ProfileFor(s.config.wifiProfiles, ssid.value).value.rules)
    else None
  }

  /** The rule has its policy rule and its route in this table. */
  predicate InKernel(k: KernelState, rule: RouteRule, table: nat)
    requires HasDestination(rule)
  {
    EntryFor(rule, table) in k.rules && EntryFor(rule, table) in k.routes
  }

  /** Nothing is lost, every route keeps its interface, and whatever is new is an entry of one of
      these rules in this table, a route going via that rule's interface. */
  ghost predicate Additions(k: KernelState, k': KernelState, rules: set<RouteRule>, table: nat) {
    && k.rules <= k'.rules && k.routes.Keys <= k'.routes.Keys
    && (forall e :: e in k.routes ==> k'.routes[e] == k.routes[e])
    && (forall e :: e in k'.rules && e !in k.rules ==> exists r :: r in rules && EntryIs(r, table, e))
    && (forall e :: e in k'.routes && e !in k.routes ==>
          exists r :: r in rules && EntryIs(r, table, e) && k'.routes[e] == r.via)
  }

  predicate EntryIs(rule: RouteRule, table: nat, e: Entry) {
    HasDestination(rule) && EntryFor(rule, table) == e
  }

  lemma AdditionsCompose(k: KernelState, k1: KernelState, k2: KernelState, a: set<RouteRule>, b: set<RouteRule>,
      rules: set<RouteRule>, table: nat)
    requires Additions(k, k1, a, table) && Additions(k1, k2, b, table) && a + b <= rules
    ensures Additions(k, k2, rules, table)
  {
    forall e | e in k2.rules && e !in k.rules ensures exists r :: r in rules && EntryIs(r, table, e) {
      var r :| r in (if e in k1.rules then a else b) && EntryIs(r, table, e);
    }
    forall e | e in k2.routes && e !in k.routes
      ensures exists r :: r in rules && EntryIs(r, table, e) && k2.routes[e] == r.via
    {
      var r :| r in (if e in k1.routes then a else b) && EntryIs(r, table, e) && k2.routes[e] == r.via;
    }
  }

  /** The rules of the list that can be installed. */
  ghost function InstallableOf(rules: seq<RouteRule>): set<RouteRule> {
    set r | r in rules && Installable(r)
  }

  /** Those of them whose names are not tracked yet. */
  ghost function UntrackedOf(rules: seq<RouteRule>, ledger: Ledger): set<RouteRule> {
    set r | r in rules && Installable(r) && r.name !in ledger
  }

  // ---------------------------------------------------------------------------------------
  // Profiles
  // ---------------------------------------------------------------------------------------

  /** Of the installable rules of this name, the last. */
  ghost function LastNamed(rules: seq<RouteRule>, name: string): (r: RouteRule)
    requires InstallableName(rules, name)
    ensures r in rules && r.name == name && Installable(r)
  {
    if InstallableName(rules[1..], name) then LastNamed(rules[1..], name) else FirstOf(rules, name)
  }

  ghost function FirstOf(rules: seq<RouteRule>, name: string): (r: RouteRule)
    requires InstallableName(rules, name) && !InstallableName(rules[1..], name)
    ensures r == rules[0] && r.name == name && Installable(r)
  {
    NameIsHereOrLater(rules, name);
    rules[0]
  }

  lemma NameIsHereOrLater(rules: seq<RouteRule>, name: string)
    ensures InstallableName(rules, name) <==>
            rules != [] && ((rules[0].name == name && Installable(rules[0])) || InstallableName(rules[1..], name))
  {
    if rules != [] {
      assert rules == [rules[0]] + rules[1..];
    }
  }

  /** Exactly the installable names are active besides, in this table, for the last rule of each;
      entries of other names stay. */
  ghost predicate ActivatedNames(ledger: Ledger, ledger': Ledger, rules: seq<RouteRule>, table: nat) {
    && (forall n :: n in ledger' <==> n in ledger || InstallableName(rules, n))
    && (forall n :: n in ledger && !InstallableName(rules, n) ==> ledger'[n] == ledger[n])
    && (forall n :: n in ledger' && InstallableName(rules, n) ==>
          ledger'[n] == ActiveRoute(n, LastNamed(rules, n).via, table))
  }

  /** The same, with all installable rules in the kernel, which gets nothing else. */
  ghost predicate Activated(x: ExecState, y: ExecState, rules: seq<RouteRule>, table: nat) {
    && ActivatedNames(x.ledger, y.ledger, rules, table)
    && (!x.router.dryRun ==> forall r :: r in rules && Installable(r) ==> InKernel(y.router.kernel, r, table))
    && Additions(x.router.kernel, y.router.kernel, InstallableOf(rules), table)
  }

  /** One application without faults. */
  lemma OneApplied(x: ExecState, rule: RouteRule, table: nat)
    requires NeverRefuses(x.router)
    ensures var y := Apply(x, rule, table).0;
            && y.router.dryRun == x.router.dryRun && NeverRefuses(y.router)
            && Additions(x.router.kernel, y.router.kernel, InstallableOf([rule]), table)
            && y.ledger == (if Installable(rule) then Track(x.ledger, rule, table) else x.ledger)
            && (Installable(rule) && !x.router.dryRun ==> InKernel(y.router.kernel, rule, table))
  {
    if x.router.dryRun || !Installable(rule) {
      assert Apply(x, rule, table).0.router == x.router;
    } else {
      ApplyOutcome(x, rule, table);
      assert rule in InstallableOf([rule]) && EntryIs(rule, table, EntryFor(rule, table));
    }
  }

  /** What the last rule of a name comes to with one rule more in front. */
  lemma LastNamedStep(rules: seq<RouteRule>, name: string)
    requires rules != []
    ensures InstallableName(rules, name) <==>
            (rules[0].name == name && Installable(rules[0])) || InstallableName(rules[1..], name)
    ensures InstallableName(rules, name) ==>
              LastNamed(rules, name) ==
              if InstallableName(rules[1..], name) then LastNamed(rules[1..], name) else rules[0]
  {
    NameIsHereOrLater(rules, name);
  }

  lemma ActivatedNamesStep(ledger: Ledger, ledger': Ledger, ledger'': Ledger, rules: seq<RouteRule>, table: nat)
    requires rules != [] && ActivatedNames(ledger', ledger'', rules[1..], table)
    requires ledger' == if Installable(rules[0]) then Track(ledger, rules[0], table) else ledger
    ensures ActivatedNames(ledger, ledger'', rules, table)
  {
    forall n
      ensures n in ledger'' <==> n in ledger || InstallableName(rules, n)
      ensures n in ledger && !InstallableName(rules, n) ==> ledger''[n] == ledger[n]
      ensures n in ledger'' && InstallableName(rules, n) ==>
                ledger''[n] == ActiveRoute(n, LastNamed(rules, n).via, table)
    {
      LastNamedStep(rules, n);
    }
  }

  lemma {:induction false} ProfileActivates(x: ExecState, rules: seq<RouteRule>, table: nat)
    requires NeverRefuses(x.router)
    ensures Activated(x, ApplyProfile(x, rules, table), rules, table)
    decreases |rules|
  {
    if rules != [] {
      var next := Apply(x, rules[0], table).0;
      OneApplied(x, rules[0], table);
      ProfileActivates(next, rules[1..], table);
      var y := ApplyProfile(x, rules, table);
      ActivatedNamesStep(x.ledger, next.ledger, y.ledger, rules, table);
      assert rules == [rules[0]] + rules[1..];
      AdditionsCompose(x.router.kernel, next.router.kernel, y.router.kernel, InstallableOf([rules[0]]),
                       InstallableOf(rules[1..]), InstallableOf(rules), table);
    }
  }

  /** An interface whose SSID has a profile gets the profile's rules, all that can be
      installed, in its own table; the default rules are left alone. */
  lemma ProfileIsApplied(s: EngineState, event: NetworkEvent, order: seq<string>)
    requires s.phase == Running && NeverRefuses(s.exec.router) && AsksForRules(s, event)
    requires ProfileNow(s, event).Some?
    ensures var t := HandleEvent(s, event, order);
            event.interface in t.indices &&
            Activated(s.exec, t.exec, ProfileNow(s, event).value,
                      TableIdV4(t.exec.router.base, t.indices[event.interface]))
  {
    AskingIsOneStep(s, event, order);
    ProfileActivates(s.exec, ProfileNow(s, event).value, TableFor(s, event.interface).1);
    ProfileKeepsBase(s.exec, ProfileNow(s, event).value, TableFor(s, event.interface).1);
  }

  // ---------------------------------------------------------------------------------------
  // Default rules
  // ---------------------------------------------------------------------------------------

  /** Of the installable rules of this name, the first. */
  ghost function FirstNamed(rules: seq<RouteRule>, name: string): (r: RouteRule)
    requires InstallableName(rules, name)
    ensures r in rules && r.name == name && Installable(r)
  {
    NameIsHereOrLater(rules, name);
    if rules[0].name == name && Installable(rules[0]) then rules[0] else FirstNamed(rules[1..], name)
  }

  /** Each name that was not tracked is now tracked for its first installable rule, which is in
      the kernel, and nothing else is new there. */
  ghost predicate FirstInstalled(x: ExecState, y: ExecState, rules: seq<RouteRule>, table: nat) {
    && Additions(x.router.kernel, y.router.kernel, UntrackedOf(rules, x.ledger), table)
    && forall n :: n !in x.ledger && InstallableName(rules, n) ==>
         && n in y.ledger && y.ledger[n] == ActiveRoute(n, FirstNamed(rules, n).via, table)
         && (!x.router.dryRun ==> InKernel(y.router.kernel, FirstNamed(rules, n), table))
  }

  lemma {:induction false} DefaultsInstallFirst(x: ExecState, rules: seq<RouteRule>, table: nat)
    requires NeverRefuses(x.router)
    ensures FirstInstalled(x, ApplyDefaults(x, rules, table), rules, table)
    decreases |rules|
  {
    if rules != [] {
      var next := if rules[0].name in x.ledger then x else Apply(x, rules[0], table).0;
      OneApplied(x, rules[0], table);
      DefaultsInstallFirst(next, rules[1..], table);
      DefaultsTrack(next, rules[1..], table);
      FirstInstalledStep(x, next, ApplyDefaults(x, rules, table), rules, table);
    }
  }

  lemma FirstInstalledStep(x: ExecState, y: ExecState, z: ExecState, rules: seq<RouteRule>, table: nat)
    requires rules != [] && y.router.dryRun == x.router.dryRun
    requires Additions(x.router.kernel, y.router.kernel, UntrackedOf([rules[0]], x.ledger), table)
    requires rules[0].name in x.ledger ==> y == x
    requires rules[0].name !in x.ledger ==>
               y.ledger == if Installable(rules[0]) then Track(x.ledger, rules[0], table) else x.ledger
    requires rules[0].name !in x.ledger && Installable(rules[0]) && !x.router.dryRun ==>
               InKernel(y.router.kernel, rules[0], table)
    requires FirstInstalled(y, z, rules[1..], table)
    requires forall n :: n in y.ledger ==> n in z.ledger && z.ledger[n] == y.ledger[n]
    ensures FirstInstalled(x, z, rules, table)
  {
    assert rules == [rules[0]] + rules[1..];
    AdditionsCompose(x.router.kernel, y.router.kernel, z.router.kernel, UntrackedOf([rules[0]], x.ledger),
                     UntrackedOf(rules[1..], y.ledger), UntrackedOf(rules, x.ledger), table);
    forall n | n !in x.ledger && InstallableName(rules, n)
      ensures n in z.ledger && z.ledger[n] == ActiveRoute(n, FirstNamed(rules, n).via, table)
      ensures !x.router.dryRun ==> InKernel(z.router.kernel, FirstNamed(rules, n), table)
    {
      NameIsHereOrLater(rules, n);
    }
  }

  /** Otherwise an interface that asks for rules gets the default rules that are not active
      yet, the first of each name, in ledger and kernel. */
  lemma DefaultsAreApplied(s: EngineState, event: NetworkEvent, order: seq<string>)
    requires s.phase == Running && NeverRefuses(s.exec.router) && AsksForRules(s, event)
    requires ProfileNow(s, event).None?
    ensures var t := HandleEvent(s, event, order);
            && (forall n :: n in t.exec.ledger <==> n in s.exec.ledger || InstallableName(s.config.defaultRules, n))
            && (forall n :: n in s.exec.ledger ==> t.exec.ledger[n] == s.exec.ledger[n])
            && (s.config.defaultRules != [] ==>
                  event.interface in t.indices &&
                  FirstInstalled(s.exec, t.exec, s.config.defaultRules,
                                 TableIdV4(t.exec.router.base, t.indices[event.interface])))
            && (s.config.defaultRules == [] ==> t.exec == s.exec && t.indices == s.indices)
  {
    var rules, table := s.config.defaultRules, TableFor(s, event.interface).1;
    AskingIsOneStep(s, event, order);
    DefaultsActivate(s.exec, rules, table);
    DefaultsInstallFirst(s.exec, rules, table);
    DefaultsKeepBase(s.exec, rules, table);
    var mid := s.(interfaces := ApplyEvent(s.interfaces, event), ssids := MoveSsid(s.ssids, event));
    assert HandleEvent(s, event, order) == ApplyDefaultRules(mid, event.interface);
  }

  // ---------------------------------------------------------------------------------------
  // Interfaces that go down
  // ---------------------------------------------------------------------------------------

  lemma RoutesCleanedIff(byName: ByName, x: ExecState, y: ExecState, gone: set<Entry>)
    requires AllInstalled(byName, x) && Drained(byName, x, y)
    requires gone == Determined(byName, x.ledger) - Determined(byName, y.ledger)
    ensures y.router.kernel.routes == x.router.kernel.routes - gone <==>
            GoesFromBelow(gone, x.router.kernel.routes.Keys)
  {
    if GoesFromBelow(gone, x.router.kernel.routes.Keys) {
      RoutesGoTogether(byName, x, y);
    }
    if y.router.kernel.routes == x.router.kernel.routes - gone {
      AloneGoesFromBelow(x.router.kernel.routes.Keys, y.router.kernel.routes.Keys, gone);
    }
  }

  lemma CleanedOfVictims(byName: ByName, left: Leftovers, x: ExecState, y: ExecState, interface: string)
    requires Exact(byName, left, x) && Drained(byName, x, y) && y.ledger == LedgerWithout(x.ledger, interface)
    requires Determined(byName, y.ledger) <= y.router.kernel.rules
    ensures var gone := EntriesVia(byName, x.ledger, interface);
            var clean := GoesFromBelow(gone, x.router.kernel.routes.Keys);
            && y.router.kernel.rules == x.router.kernel.rules - gone
            && (Exact(byName, left, y) <==> clean)
            && (y.router.kernel.routes == x.router.kernel.routes - gone <==> clean)
  {
    ExactIsInstalled(byName, left, x);
    DrainingKeepsExact(byName, left, x, y);
    RoutesCleanedIff(byName, x, y, EntriesVia(byName, x.ledger, interface));
  }

  /** A Down or Removed event on an exact ledger, when deletions succeed: the ledger and the
      policy rules lose exactly what went via the interface, in tables a removal can name. The
      routes lose exactly that, and the ledger stays exact, if and only if nothing that stays,
      another interface's route or a leftover, lies below it in its destination and table. */
  lemma DownIsCleaned(left: Leftovers, s: EngineState, event: NetworkEvent, order: seq<string>)
    requires event.InterfaceChanged? && event.change in {Down, Removed}
    requires s.phase == Running && ValidOrder(s, event, order)
    requires Workable(s) && Exact(Named(s.config), left, s.exec) && DeletionsSucceed(s.exec.router.kernel)
    ensures var y := HandleEvent(s, event, order).exec;
            var gone := EntriesVia(Named(s.config), s.exec.ledger, event.interface);
            var clean := GoesFromBelow(gone, s.exec.router.kernel.routes.Keys);
            && y.ledger == LedgerWithout(s.exec.ledger, event.interface)
            && y.router.kernel.rules == s.exec.router.kernel.rules - gone
            && (Exact(Named(s.config), left, y) <==> clean)
            && (y.router.kernel.routes == s.exec.router.kernel.routes - gone <==> clean)
  {
    var y := HandleDown(s, order).exec;
    ExactIsInstalled(Named(s.config), left, s.exec);
    DownIsOneStep(s, event, order);
    DownDrains(s, event.interface, order);
    DeletionsThatSucceedAreWhole(s.exec, Named(s.config), s.exec.ledger, order);
    VictimsAreGone(s.exec, y, event.interface, order);
    CleanedOfVictims(Named(s.config), left, s.exec, y, event.interface);
  }

  /** Without leftovers: no tracked rule that stays has a better priority than one that goes, for
      the same destination in the same table. */
  ghost predicate NobodyBelow(byName: ByName, ledger: Ledger, interface: string)
    requires Tracked(byName, ledger)
  {
    forall m, n :: m in LedgerWithout(ledger, interface) && n in ledger && n !in LedgerWithout(ledger, interface)
                   && SameGroup(EntryOf(byName, ledger, m), EntryOf(byName, ledger, n)) ==>
      byName[n].priority <= byName[m].priority
  }

  lemma GoneIsVia(byName: ByName, ledger: Ledger, interface: string, n: string)
    requires Tracked(byName, ledger) && OneEach(byName, ledger) && n in ledger
    ensures EntryOf(byName, ledger, n) in EntriesVia(byName, ledger, interface) <==>
            n !in LedgerWithout(ledger, interface)
  {
    var stays := LedgerWithout(ledger, interface);
    assert EntryOf(byName, ledger, n) in Determined(byName, ledger);
    forall m | m in stays ensures EntryOf(byName, stays, m) == EntryOf(byName, ledger, n) <==> m == n {
      assert EntryOf(byName, stays, m) == EntryOf(byName, ledger, m);
    }
  }

  lemma NobodyBelowGoesFromBelow(byName: ByName, ledger: Ledger, interface: string)
    requires Tracked(byName, ledger) && OneEach(byName, ledger) && NobodyBelow(byName, ledger, interface)
    ensures GoesFromBelow(EntriesVia(byName, ledger, interface), Determined(byName, ledger))
  {
    var gone := EntriesVia(byName, ledger, interface);
    forall e, f | e in gone && f in Determined(byName, ledger) && SameGroup(e, f) && f.rank < e.rank ensures f in gone {
      var n :| n in ledger && EntryOf(byName, ledger, n) == e;
      var m :| m in ledger && EntryOf(byName, ledger, m) == f;
      GoneIsVia(byName, ledger, interface, n);
      GoneIsVia(byName, ledger, interface, m);
    }
  }

  /** Without leftovers the condition is one on priorities: a surviving rule of better priority
      than a victim, for its destination in its table, is what breaks exactness. */
  lemma FromBelowByPriority(byName: ByName, x: ExecState, interface: string)
    requires Exact(byName, NOTHING_LEFT, x)
    ensures GoesFromBelow(EntriesVia(byName, x.ledger, interface), x.router.kernel.routes.Keys) <==>
            NobodyBelow(byName, x.ledger, interface)
  {
    assert x.router.kernel.routes.Keys == Determined(byName, x.ledger);
    if NobodyBelow(byName, x.ledger, interface) {
      NobodyBelowGoesFromBelow(byName, x.ledger, interface);
    }
    if GoesFromBelow(EntriesVia(byName, x.ledger, interface), Determined(byName, x.ledger)) {
      FromBelowHasNobodyBelow(byName, x.ledger, interface);
    }
  }

  lemma FromBelowHasNobodyBelow(byName: ByName, ledger: Ledger, interface: string)
    requires Tracked(byName, ledger) && OneEach(byName, ledger)
    requires GoesFromBelow(EntriesVia(byName, ledger, interface), Determined(byName, ledger))
    ensures NobodyBelow(byName, ledger, interface)
  {
    forall m, n | m in LedgerWithout(ledger, interface) && n in ledger && n !in LedgerWithout(ledger, interface)
                  && SameGroup(EntryOf(byName, ledger, m), EntryOf(byName, ledger, n))
      ensures byName[n].priority <= byName[m].priority
    {
      GoneIsVia(byName, ledger, interface, m);
      GoneIsVia(byName, ledger, interface, n);
      assert EntryOf(byName, ledger, m) in Determined(byName, ledger);
    }
  }

  lemma AloneGoesFromBelow(routes: set<Entry>, routes': set<Entry>, gone: set<Entry>)
    requires gone <= routes && routes' == routes - gone && LowestFirst(routes, routes')
    ensures GoesFromBelow(gone, routes)
  {
  }

  // ---------------------------------------------------------------------------------------
  // Dry runs
  // ---------------------------------------------------------------------------------------

  lemma {:induction false} DefaultsRunDry(x: ExecState, rules: seq<RouteRule>, table: nat)
    requires x.router.dryRun
    ensures ApplyDefaults(x, rules, table).router == x.router
    decreases |rules|
  {
    if rules != [] {
      DefaultsRunDry(if rules[0].name in x.ledger then x else Apply(x, rules[0], table).0, rules[1..], table);
    }
  }

  lemma {:induction false} ProfileRunsDry(x: ExecState, rules: seq<RouteRule>, table: nat)
    requires x.router.dryRun
    ensures ApplyProfile(x, rules, table).router == x.router
    decreases |rules|
  {
    if rules != [] {
      ProfileRunsDry(Apply(x, rules[0], table).0, rules[1..], table);
    }
  }

  lemma {:induction false} RemovalsRunDry(x: ExecState, byName: ByName, tables: Ledger, order: seq<string>)
    requires x.router.dryRun
    ensures RemoveAll(x, byName, tables, order).router == x.router
    decreases |order|
  {
    if order != [] {
      var n := order[0];
      RemovalsRunDry(if n in byName && n in tables then Remove(x, byName[n], tables[n].table).0 else x, byName, tables,
        order[1..]);
    }
  }

  lemma ForInterfaceRunsDry(s: EngineState, interface: string, ssid: Option<string>)
    requires s.exec.router.dryRun
    ensures ApplyDefaultRules(s, interface).exec.router == s.exec.router
    ensures ApplyForInterface(s, interface, ssid).exec.router == s.exec.router
  {
    DefaultsRunDry(s.exec, s.config.defaultRules, TableFor(s, interface).1);
    if ssid.Some? && ProfileFor(s.config.wifiProfiles, ssid.value).Some? {
      ProfileRunsDry(s.exec, ProfileFor(s.config.wifiProfiles, ssid.value).value.rules, TableFor(s, interface).1);
    }
  }

  /** The removals of a dry run untrack every rule that has a destination. */
  lemma {:induction false} DryRemovalsUntrack(x: ExecState, byName: ByName, tables: Ledger, order: seq<string>)
    requires x.router.dryRun && KeyedByName(byName)
    requires forall n :: n in order ==> n in byName && n in tables && HasDestination(byName[n])
    ensures forall n :: n in RemoveAll(x, byName, tables, order).ledger <==> n in x.ledger && n !in order
    ensures forall n :: n in RemoveAll(x, byName, tables, order).ledger ==>
              RemoveAll(x, byName, tables, order).ledger[n] == x.ledger[n]
    decreases |order|
  {
    if order != [] {
      var n := order[0];
      assert order == [n] + order[1..];
      DryRemovalsUntrack(Remove(x, byName[n], tables[n].table).0, byName, tables, order[1..]);
    }
  }

  /** A Down or Removed event in a dry run: the ledger loses exactly what went via the interface,
      in whatever tables. */
  lemma DryDownUntracks(s: EngineState, event: NetworkEvent, order: seq<string>)
    requires event.InterfaceChanged? && event.change in {Down, Removed}
    requires s.phase == Running && ValidOrder(s, event, order) && s.exec.router.dryRun
    requires DistinctConfig(s.config) && Tracked(Named(s.config), s.exec.ledger)
    ensures var ledger := HandleEvent(s, event, order).exec.ledger;
            && (forall n :: n in ledger <==> n in s.exec.ledger && s.exec.ledger[n].interface != event.interface)
            && (forall n :: n in ledger ==> ledger[n] == s.exec.ledger[n])
  {
    DownIsOneStep(s, event, order);
    NamedIsDistinct(s.config);
    DryRemovalsUntrack(s.exec, Named(s.config), s.exec.ledger, order);
  }

  /** A dry run never makes a request, through any events, reloads, starts and stops. */
  lemma {:induction false} DryRunsTouchNothing(s: EngineState, ops: seq<Op>)
    requires s.exec.router.dryRun
    ensures Run(s, ops).exec.router == s.exec.router
    decreases |ops|
  {
    if ops != [] {
      if ops[0].Event? && s.phase == Running {
        EventRunsDry(s, ops[0].event, ops[0].order);
      }
      DryRunsTouchNothing(StepOf(s, ops[0]), ops[1..]);
    }
  }

  lemma EventRunsDry(s: EngineState, event: NetworkEvent, order: seq<string>)
    requires s.exec.router.dryRun && s.phase == Running
    ensures HandleEvent(s, event, order).exec.router == s.exec.router
  {
    var s1 := s.(interfaces := ApplyEvent(s.interfaces, event));
    if TakesDown(event) {
      RemovalsRunDry(s.exec, Named(s.config), s.exec.ledger, order);
    } else if !event.RouteChanged? {
      ForInterfaceRunsDry(s1.(ssids := MoveSsid(s.ssids, event)), event.interface, SsidNow(s, event));
    }
  }
}
