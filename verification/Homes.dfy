/** Which interface an installed route goes via, over runs in which any request may be refused
    (src/engine/executor.rs, src/engine/dispatcher.rs). */
module Homes {
  import opened Wrappers
  import opened Config
  import opened Kernel
  import opened Rules
  import opened Executor
  import opened State
  import opened Dispatcher
  import opened LedgerInvariants
  import opened RuleNames
  import opened Draining
  import opened Runs
  import opened LedgerRuns
  import opened Soundness

  /** The route was put there for a rule of the configuration, and goes via its interface. */
  ghost predicate OfSomeRule(byName: ByName, routes: map<Entry, string>, e: Entry)
    requires e in routes
  {
    exists n :: n in byName && HasDestination(byName[n]) && e == EntryFor(byName[n], e.table)
                && routes[e] == byName[n].via
  }

  /** Every route is a leftover as it was, or some rule's. */
  ghost predicate Homed(byName: ByName, left: Leftovers, routes: map<Entry, string>) {
    forall e :: e in routes ==> (e in left.routes && routes[e] == left.routes[e]) || OfSomeRule(byName, routes, e)
  }

  /** Where every tracked rule is installed and no two rules take one place, its route goes via
      its own interface, unless it is a leftover. */
  lemma SoundRoutesGoHome(byName: ByName, left: Leftovers, x: ExecState, n: string)
    requires AllInstalled(byName, x) && DistinctSlots(byName) && Homed(byName, left, x.router.kernel.routes)
    requires n in x.ledger
    ensures var e := EntryOf(byName, x.ledger, n);
            && e in x.router.kernel.routes
            && (x.router.kernel.routes[e] == x.ledger[n].interface ||
                (e in left.routes && x.router.kernel.routes[e] == left.routes[e]))
  {
    var e := EntryOf(byName, x.ledger, n);
    assert e in Determined(byName, x.ledger);
    if OfSomeRule(byName, x.router.kernel.routes, e) {
      var m :| m in byName && HasDestination(byName[m]) && e == EntryFor(byName[m], e.table)
               && x.router.kernel.routes[e] == byName[m].via;
      assert m != n ==> !SameSlot(byName[m], byName[n]);
    }
  }

  lemma AddedRouteIsHomed(byName: ByName, left: Leftovers, routes: map<Entry, string>, rule: RouteRule, table: nat)
    requires Homed(byName, left, routes) && Registered(byName, rule) && HasDestination(rule)
    requires EntryFor(rule, table) !in routes
    ensures Homed(byName, left, routes[EntryFor(rule, table) := rule.via])
  {
    var routes' := routes[EntryFor(rule, table) := rule.via];
    forall e | e in routes' && !(e in left.routes && routes'[e] == left.routes[e])
      ensures OfSomeRule(byName, routes', e)
    {
      if e in routes {
        assert OfSomeRule(byName, routes, e);
      } else {
        assert e == EntryFor(byName[rule.name], e.table);
      }
    }
  }

  /** What an application, however far it gets, does to the routes. */
  lemma ApplyAddsOneRoute(x: ExecState, rule: RouteRule, table: nat)
    ensures var routes, routes' := x.router.kernel.routes, Apply(x, rule, table).0.router.kernel.routes;
            || routes' == routes
            || (HasDestination(rule) && EntryFor(rule, table) !in routes
                && routes' == routes[EntryFor(rule, table) := rule.via])
  {
  }

  lemma ApplyKeepsHomed(byName: ByName, left: Leftovers, x: ExecState, rule: RouteRule, table: nat)
    requires Homed(byName, left, x.router.kernel.routes) && Registered(byName, rule)
    ensures Homed(byName, left, Apply(x, rule, table).0.router.kernel.routes)
  {
    ApplyAddsOneRoute(x, rule, table);
    if Apply(x, rule, table).0.router.kernel.routes != x.router.kernel.routes {
      AddedRouteIsHomed(byName, left, x.router.kernel.routes, rule, table);
    }
  }

  lemma {:induction false} DefaultsKeepHomed(byName: ByName, left: Leftovers, x: ExecState, rules: seq<RouteRule>,
      table: nat)
    requires Homed(byName, left, x.router.kernel.routes) && forall r :: r in rules ==> Registered(byName, r)
    ensures Homed(byName, left, ApplyDefaults(x, rules, table).router.kernel.routes)
    decreases |rules|
  {
    if rules != [] {
      ApplyKeepsHomed(byName, left, x, rules[0], table);
      DefaultsKeepHomed(
        byName, left, if rules[0].name in x.ledger then x else Apply(x, rules[0], table).0, rules[1..], table);
    }
  }

  lemma {:induction false} ProfileKeepsHomed(byName: ByName, left: Leftovers, x: ExecState, rules: seq<RouteRule>,
      table: nat)
    requires Homed(byName, left, x.router.kernel.routes) && forall r :: r in rules ==> Registered(byName, r)
    ensures Homed(byName, left, ApplyProfile(x, rules, table).router.kernel.routes)
    decreases |rules|
  {
    if rules != [] {
      ApplyKeepsHomed(byName, left, x, rules[0], table);
      ProfileKeepsHomed(byName, left, Apply(x, rules[0], table).0, rules[1..], table);
    }
  }

  lemma ForInterfaceKeepsHomed(left: Leftovers, s: EngineState, interface: string, ssid: Option<string>)
    requires DistinctConfig(s.config) && Homed(Named(s.config), left, s.exec.router.kernel.routes)
    ensures Homed(Named(s.config), left, ApplyForInterface(s, interface, ssid).exec.router.kernel.routes)
  {
    var byName, table := Named(s.config), TableFor(s, interface).1;
    NamedIsDistinct(s.config);
    if ssid.Some? && ProfileFor(s.config.wifiProfiles, ssid.value).Some? {
      ProfileRulesIncluded(s.config.wifiProfiles, ssid.value);
      assert forall r :: r in ProfileFor(s.config.wifiProfiles, ssid.value).value.rules ==> r in AllRules(s.config);
      ProfileKeepsHomed(byName, left, s.exec, ProfileFor(s.config.wifiProfiles, ssid.value).value.rules, table);
    } else {
      assert forall r :: r in s.config.defaultRules ==> r in AllRules(s.config);
      DefaultsKeepHomed(byName, left, s.exec, s.config.defaultRules, table);
    }
  }

  /** Removals keep the interface of every route they leave. */
  lemma {:induction false} RemovalsOnlyLoseRoutes(x: ExecState, byName: ByName, tables: Ledger, order: seq<string>)
    ensures var routes, routes' := x.router.kernel.routes, RemoveAll(x, byName, tables, order).router.kernel.routes;
            forall e :: e in routes' ==> e in routes && routes'[e] == routes[e]
    decreases |order|
  {
    if order != [] {
      var n := order[0];
      RemovalsOnlyLoseRoutes(if n in byName && n in tables then Remove(x, byName[n], tables[n].table).0 else x, byName,
        tables, order[1..]);
    }
  }

  lemma EventKeepsHomed(left: Leftovers, s: EngineState, event: NetworkEvent, order: seq<string>)
    requires DistinctConfig(s.config) && Homed(Named(s.config), left, s.exec.router.kernel.routes)
    ensures Homed(Named(s.config), left, HandleEvent(s, event, order).exec.router.kernel.routes)
  {
    if s.phase == Running {
      if TakesDown(event) {
        var routes, routes' := s.exec.router.kernel.routes, HandleDown(s, order).exec.router.kernel.routes;
        DownIsOneStep(s, event, order);
        RemovalsOnlyLoseRoutes(s.exec, Named(s.config), s.exec.ledger, order);
        forall e | e in routes' && !(e in left.routes && routes'[e] == left.routes[e])
          ensures OfSomeRule(Named(s.config), routes', e)
        {
          assert OfSomeRule(Named(s.config), routes, e);
        }
      } else if AsksForRules(s, event) {
        AskingIsOneStep(s, event, order);
        var mid := s.(interfaces := ApplyEvent(s.interfaces, event), ssids := MoveSsid(s.ssids, event));
        ForInterfaceKeepsHomed(left, mid, event.interface, SsidNow(s, event));
      } else {
        OthersAreQuiet(s, event, order);
      }
    }
  }

  lemma ReloadKeepsHomed(left: Leftovers, before: Config, after: Config, routes: map<Entry, string>)
    requires OnlyAddsRules(before, after) && Homed(Named(before), left, routes)
    ensures Homed(Named(after), left, routes)
  {
    forall e | e in routes && !(e in left.routes && routes[e] == left.routes[e])
      ensures OfSomeRule(Named(after), routes, e)
    {
      assert OfSomeRule(Named(before), routes, e);
    }
  }

  /** Over every run in which reloads only add rules, whatever the kernel refuses and whether or
      not the run stays sound, every route in the kernel is an untouched leftover or goes via the
      interface of a rule that has its place. */
  lemma {:induction false} HomedOverRuns(left: Leftovers, s: EngineState, ops: seq<Op>)
    requires DistinctConfig(s.config) && GrowingRun(s, ops)
    requires Homed(Named(s.config), left, s.exec.router.kernel.routes)
    ensures Homed(Named(Run(s, ops).config), left, Run(s, ops).exec.router.kernel.routes)
    decreases |ops|
  {
    if ops != [] {
      StepTouches(s, ops[0]);
      if ops[0].Event? {
        EventKeepsHomed(left, s, ops[0].event, ops[0].order);
      } else if ops[0].Reload? {
        ReloadKeepsHomed(left, s.config, ops[0].config, s.exec.router.kernel.routes);
      }
      HomedOverRuns(left, StepOf(s, ops[0]), ops[1..]);
    }
  }
}
