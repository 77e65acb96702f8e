/** The ledger and the kernel over whole runs (src/engine/dispatcher.rs, src/engine/executor.rs). */
module LedgerRuns {
  import opened Wrappers
  import opened Config
  import opened Kernel
  import opened Rules
  import opened Executor
  import opened State
  import opened Dispatcher
  import opened LedgerInvariants
  import opened RuleNames
  import opened Extending
  import opened Draining
  import opened Runs
  import opened Sets

  /** Distinct names and a real kernel, which may refuse any request. */
  ghost predicate Workable(s: EngineState) {
    DistinctConfig(s.config) && !s.exec.router.dryRun
  }

  // ---------------------------------------------------------------------------------------
  // One event
  // ---------------------------------------------------------------------------------------

  lemma InstalledIsSettled(byName: ByName, x: ExecState, table: nat)
    requires AllInstalled(byName, x)
    ensures Settled(byName, x, x, table)
  {
    forall n | n in x.ledger ensures EntryOf(byName, x.ledger, n) in Determined(byName, x.ledger) {
    }
  }

  /** Applying the rules of an interface, with the rules and the table it uses. */
  lemma ApplyingExtends(s: EngineState, interface: string, ssid: Option<string>)
    returns (rules: seq<RouteRule>, table: nat)
    requires Workable(s) && AllInstalled(Named(s.config), s.exec)
    ensures var byName, y := Named(s.config), ApplyForInterface(s, interface, ssid).exec;
            && Extended(byName, s.exec, y)
            && OnlyTracks(s.exec.ledger, y.ledger, rules, table)
            && (WholeOperations(s.exec.router.kernel) ==> NoStrays(byName, s.exec, y))
  {
    var byName := Named(s.config);
    table := TableFor(s, interface).1;
    NamedIsDistinct(s.config);
    ExtendedByNothing(byName, s.exec);
    if ssid.Some? && ProfileFor(s.config.wifiProfiles, ssid.value).Some? {
      rules := ProfileFor(s.config.wifiProfiles, ssid.value).value.rules;
      ProfileRulesIncluded(s.config.wifiProfiles, ssid.value);
      assert forall r :: r in rules ==> r in AllRules(s.config);
      InstalledIsSettled(byName, s.exec, table);
      ProfileExtends(byName, s.exec, s.exec, rules, table);
      ProfileTracks(s.exec, rules, table);
    } else {
      rules := s.config.defaultRules;
      assert forall r :: r in rules ==> r in AllRules(s.config);
      DefaultsExtend(byName, s.exec, s.exec, rules, table);
      DefaultsTrack(s.exec, rules, table);
    }
  }

  lemma AskingExtends(s: EngineState, event: NetworkEvent, order: seq<string>)
    returns (rules: seq<RouteRule>, table: nat)
    requires s.phase == Running && Workable(s) && AllInstalled(Named(s.config), s.exec) && AsksForRules(s, event)
    ensures var byName, y := Named(s.config), HandleEvent(s, event, order).exec;
            && Extended(byName, s.exec, y)
            && OnlyTracks(s.exec.ledger, y.ledger, rules, table)
            && (WholeOperations(s.exec.router.kernel) ==> NoStrays(byName, s.exec, y))
  {
    AskingIsOneStep(s, event, order);
    var mid := s.(interfaces := ApplyEvent(s.interfaces, event), ssids := MoveSsid(s.ssids, event));
    rules, table := ApplyingExtends(mid, event.interface, SsidNow(s, event));
  }

  lemma VictimsAreTracked(byName: ByName, x: ExecState, interface: string, order: seq<string>)
    requires AllInstalled(byName, x) && OneEach(byName, x.ledger) && ListsVictims(x.ledger, interface, order)
    ensures StillTracked(byName, x, x.ledger, order)
  {
    forall n | n in order ensures EntryOf(byName, x.ledger, n) in x.router.kernel.rules {
      assert EntryOf(byName, x.ledger, n) in Determined(byName, x.ledger);
    }
  }

  lemma DownDrains(s: EngineState, interface: string, order: seq<string>)
    requires Workable(s) && AllInstalled(Named(s.config), s.exec) && OneEach(Named(s.config), s.exec.ledger)
    requires ListsVictims(s.exec.ledger, interface, order)
    ensures var byName, y := Named(s.config), HandleDown(s, order).exec;
            && Drained(byName, s.exec, y) && OnlyUntracks(s.exec, y, order)
            && (Determined(byName, y.ledger) <= y.router.kernel.rules <==>
                RemovesWhole(s.exec, byName, s.exec.ledger, order))
  {
    var byName := Named(s.config);
    NamedIsDistinct(s.config);
    DrainedOfNothing(byName, s.exec);
    VictimsAreTracked(byName, s.exec, interface, order);
    DrainAll(byName, s.exec, s.exec, s.exec.ledger, order);
    WholeRemovalsKeepRules(byName, s.exec, s.exec, s.exec.ledger, order);
  }

  lemma {:induction false} DeletionsThatSucceedAreWhole(x: ExecState, byName: ByName, tables: Ledger,
      order: seq<string>)
    requires NoHalfRemovals(x.router.kernel)
    ensures RemovesWhole(x, byName, tables, order)
    decreases |order|
  {
    if order != [] {
      var n := order[0];
      DeletionsThatSucceedAreWhole(
        if n in byName && n in tables then Remove(x, byName[n], tables[n].table).0 else x, byName, tables, order[1..]);
    }
  }

  /** What an event must do to keep the ledger exact: leave no policy rule without its tracking
      and no tracked rule without its policy rule, move no tracked rule to another table, give
      every tracked rule an entry of its own that is no leftover, and remove from below. */
  ghost predicate Orderly(byName: ByName, left: Leftovers, x: ExecState, y: ExecState) {
    && Tracked(byName, x.ledger) && Tracked(byName, y.ledger)
    && NoStrays(byName, x, y) && Determined(byName, y.ledger) <= y.router.kernel.rules
    && StaysPut(x.ledger, y.ledger)
    && OneEach(byName, y.ledger) && Apart(Determined(byName, y.ledger), left)
    && FromBelow(byName, x, y)
  }

  lemma ExtendedIsOrderly(byName: ByName, left: Leftovers, x: ExecState, y: ExecState)
    requires Extended(byName, x, y)
    ensures Orderly(byName, left, x, y) <==>
            && NoStrays(byName, x, y) && StaysPut(x.ledger, y.ledger)
            && OneEach(byName, y.ledger) && Apart(Determined(byName, y.ledger), left)
  {
    if StaysPut(x.ledger, y.ledger) {
      PutEntriesStay(byName, x.ledger, y.ledger);
    }
  }

  lemma DrainedIsOrderly(byName: ByName, left: Leftovers, x: ExecState, y: ExecState)
    requires Exact(byName, left, x) && Drained(byName, x, y)
    ensures Orderly(byName, left, x, y) <==>
            Determined(byName, y.ledger) <= y.router.kernel.rules && FromBelow(byName, x, y)
  {
    FewerStillOneEach(byName, x, y);
  }

  lemma DownKeepsExact(left: Leftovers, s: EngineState, interface: string, order: seq<string>)
    requires Workable(s) && Exact(Named(s.config), left, s.exec) && ListsVictims(s.exec.ledger, interface, order)
    ensures var t := HandleDown(s, order);
            && SameMachine(s.exec, t.exec)
            && (Exact(Named(s.config), left, t.exec) <==> Orderly(Named(s.config), left, s.exec, t.exec))
  {
    var t := HandleDown(s, order);
    ExactIsInstalled(Named(s.config), left, s.exec);
    DownDrains(s, interface, order);
    DrainingKeepsExact(Named(s.config), left, s.exec, t.exec);
    DrainedIsOrderly(Named(s.config), left, s.exec, t.exec);
  }

  lemma AskingKeepsExact(left: Leftovers, s: EngineState, event: NetworkEvent, order: seq<string>)
    requires s.phase == Running && Workable(s) && Exact(Named(s.config), left, s.exec) && AsksForRules(s, event)
    ensures var t := HandleEvent(s, event, order);
            && SameMachine(s.exec, t.exec)
            && (Exact(Named(s.config), left, t.exec) <==> Orderly(Named(s.config), left, s.exec, t.exec))
  {
    var t := HandleEvent(s, event, order);
    ExactIsInstalled(Named(s.config), left, s.exec);
    var rules, table := AskingExtends(s, event, order);
    ExtendingKeepsExact(Named(s.config), left, s.exec, t.exec, rules, table);
    ExtendedIsOrderly(Named(s.config), left, s.exec, t.exec);
  }

  lemma NothingIsOrderly(byName: ByName, left: Leftovers, x: ExecState)
    requires Exact(byName, left, x)
    ensures Orderly(byName, left, x, x)
  {
  }

  /** One event, whatever the kernel grants, keeps the ledger exact if and only if it is orderly. */
  lemma EventKeepsExact(left: Leftovers, s: EngineState, event: NetworkEvent, order: seq<string>)
    requires s.phase == Running && Workable(s) && ValidOrder(s, event, order)
    requires Exact(Named(s.config), left, s.exec)
    ensures var t := HandleEvent(s, event, order);
            && SameMachine(s.exec, t.exec)
            && (Exact(Named(s.config), left, t.exec) <==> Orderly(Named(s.config), left, s.exec, t.exec))
  {
    if TakesDown(event) {
      DownKeepsExact(left, s.(interfaces := ApplyEvent(s.interfaces, event)), event.interface, order);
    } else if AsksForRules(s, event) {
      AskingKeepsExact(left, s, event, order);
    } else {
      OthersAreQuiet(s, event, order);
      NothingIsOrderly(Named(s.config), left, s.exec);
    }
  }

  // ---------------------------------------------------------------------------------------
  // Reloads and stops
  // ---------------------------------------------------------------------------------------

  /** The entries the ledger determines, each with its rule's interface. */
  ghost function Places(byName: ByName, ledger: Ledger): set<(Entry, string)>
    requires Tracked(byName, ledger)
  {
    set n | n in ledger :: (EntryOf(byName, ledger, n), byName[n].via)
  }

  /** Every tracked name still has a rule for the same interface, and takes one of the places
      taken before, no two the same. Rules that the reload leaves as they are do. */
  ghost predicate ReloadOrderly(byName: ByName, byName': ByName, ledger: Ledger) {
    && Tracked(byName, ledger) && Tracked(byName', ledger) && OneEach(byName', ledger)
    && Places(byName', ledger) <= Places(byName, ledger)
  }

  lemma {:induction false} DeterminedSize(byName: ByName, ledger: Ledger)
    requires Tracked(byName, ledger) && OneEach(byName, ledger)
    ensures |Determined(byName, ledger)| == |ledger|
    decreases ledger.Keys
  {
    if n :| n in ledger {
      DeterminedUntrack(byName, ledger, n);
      DeterminedSize(byName, ledger - {n});
      assert (ledger - {n}).Keys == ledger.Keys - {n};
    } else {
      assert Determined(byName, ledger) == {};
    }
  }

  lemma PlaceOfDetermined(byName: ByName, ledger: Ledger, e: Entry) returns (via: string)
    requires Tracked(byName, ledger) && e in Determined(byName, ledger)
    ensures (e, via) in Places(byName, ledger)
  {
    var n :| n in ledger && EntryOf(byName, ledger, n) == e;
    via := byName[n].via;
  }

  lemma DeterminedByPlace(byName: ByName, ledger: Ledger, e: Entry, via: string)
    requires Tracked(byName, ledger) && (e, via) in Places(byName, ledger)
    ensures e in Determined(byName, ledger)
  {
    var n :| n in ledger && (EntryOf(byName, ledger, n), byName[n].via) == (e, via);
  }

  lemma SamePlacesDetermineTheSame(byName: ByName, byName': ByName, ledger: Ledger)
    requires ReloadOrderly(byName, byName', ledger) && OneEach(byName, ledger)
    ensures Determined(byName', ledger) == Determined(byName, ledger)
  {
    forall e | e in Determined(byName', ledger) ensures e in Determined(byName, ledger) {
      var via := PlaceOfDetermined(byName', ledger, e);
      DeterminedByPlace(byName, ledger, e, via);
    }
    DeterminedSize(byName, ledger);
    DeterminedSize(byName', ledger);
    SameSizeSubset(Determined(byName', ledger), Determined(byName, ledger));
  }

  lemma AtHomeIsPlaces(byName: ByName, ledger: Ledger, routes: map<Entry, string>)
    requires Tracked(byName, ledger)
    ensures AtHome(byName, ledger, routes) <==>
            forall p :: p in Places(byName, ledger) ==> p.0 in routes && routes[p.0] == p.1
  {
    if forall p :: p in Places(byName, ledger) ==> p.0 in routes && routes[p.0] == p.1 {
      forall n | n in ledger
        ensures EntryOf(byName, ledger, n) in routes && routes[EntryOf(byName, ledger, n)] == byName[n].via
      {
        assert (EntryOf(byName, ledger, n), byName[n].via) in Places(byName, ledger);
      }
    }
  }

  /** With one account of the kernel in both configurations the places are the same. */
  lemma SameHomesSamePlaces(byName: ByName, byName': ByName, ledger: Ledger, routes: map<Entry, string>)
    requires Tracked(byName, ledger) && Tracked(byName', ledger)
    requires AtHome(byName, ledger, routes) && AtHome(byName', ledger, routes)
    requires Determined(byName', ledger) == Determined(byName, ledger)
    ensures Places(byName', ledger) <= Places(byName, ledger)
  {
    AtHomeIsPlaces(byName, ledger, routes);
    AtHomeIsPlaces(byName', ledger, routes);
    forall p | p in Places(byName', ledger) ensures p in Places(byName, ledger) {
      DeterminedByPlace(byName', ledger, p.0, p.1);
      var via := PlaceOfDetermined(byName, ledger, p.0);
    }
  }

  /** A reload keeps the ledger exact if and only if it is orderly. */
  lemma ReloadKeepsExact(byName: ByName, byName': ByName, left: Leftovers, x: ExecState)
    requires Exact(byName, left, x)
    ensures Exact(byName', left, x) <==> ReloadOrderly(byName, byName', x.ledger)
  {
    if ReloadOrderly(byName, byName', x.ledger) {
      SamePlacesDetermineTheSame(byName, byName', x.ledger);
      AtHomeIsPlaces(byName, x.ledger, x.router.kernel.routes);
      AtHomeIsPlaces(byName', x.ledger, x.router.kernel.routes);
    }
    if Exact(byName', left, x) {
      SameHomesSamePlaces(byName, byName', x.ledger, x.router.kernel.routes);
    }
  }

  /** A reload that leaves every tracked rule as it is, is orderly. */
  lemma UnchangedRulesKeepTheirPlaces(byName: ByName, byName': ByName, ledger: Ledger)
    requires Tracked(byName, ledger) && OneEach(byName, ledger)
    requires forall n :: n in ledger ==> n in byName' && byName'[n] == byName[n]
    ensures ReloadOrderly(byName, byName', ledger)
  {
    assert forall n :: n in ledger ==> EntryOf(byName', ledger, n) == EntryOf(byName, ledger, n);
    forall p | p in Places(byName', ledger) ensures p in Places(byName, ledger) {
      var n :| n in ledger && p == (EntryOf(byName', ledger, n), byName'[n].via);
      assert p == (EntryOf(byName, ledger, n), byName[n].via);
    }
  }

  /** A reload that gives a tracked rule another priority breaks exactness: the kernel keeps
      the old entries, and a later removal looks for new ones. */
  lemma ReloadBreaksLedger(s: EngineState, left: Leftovers, rule: RouteRule)
    requires s.config == Config(["eth0"], [], [rule]) && Installable(rule) && rule.priority < U32_MAX
    requires rule.name in s.exec.ledger && Exact(Named(s.config), left, s.exec)
    ensures var changed := Config(["eth0"], [], [rule.(priority := rule.priority + 1)]);
            !Exact(Named(changed), left, StepOf(s, Op.Reload(changed)).exec)
  {
    var rule' := rule.(priority := rule.priority + 1);
    var changed := Config(["eth0"], [], [rule']);
    OneRuleNamed(s.config, rule);
    OneRuleNamed(changed, rule');
    var ledger := s.exec.ledger;
    if Tracked(Named(changed), ledger) {
      var e := EntryOf(Named(changed), ledger, rule.name);
      assert e in Determined(Named(changed), ledger);
      assert e !in Determined(Named(s.config), ledger);
    }
  }

  lemma OneRuleNamed(config: Config, rule: RouteRule)
    requires config.defaultRules == [rule] && config.wifiProfiles == []
    ensures Named(config) == map[rule.name := rule]
  {
    assert ProfileRules(config.wifiProfiles) == [] && AllRules(config) == [rule];
    assert [rule][..0] == [];
    assert RulesMap([rule]) == RulesMap([rule][..0])[rule.name := rule];
  }

  /** Stopping clears the ledger only, so it stays exact just when there was nothing in it. */
  lemma StopForgets(left: Leftovers, s: EngineState)
    requires Exact(Named(s.config), left, s.exec)
    ensures Exact(Named(s.config), left, StepOf(s, Stop).exec) <==> s.exec.ledger == map[]
  {
    assert Determined(Named(s.config), map[]) == {};
    if n :| n in s.exec.ledger {
      assert EntryOf(Named(s.config), s.exec.ledger, n) in s.exec.router.kernel.rules;
    }
  }

  // ---------------------------------------------------------------------------------------
  // Whole runs
  // ---------------------------------------------------------------------------------------

  /** Every walk of the ledger is a real one, and every configuration has distinct names. */
  ghost predicate RealRun(s: EngineState, ops: seq<Op>)
    decreases |ops|
  {
    ops == [] ||
    (RealWalk(s, ops[0]) && (ops[0].Reload? ==> DistinctConfig(ops[0].config)) && RealRun(StepOf(s, ops[0]), ops[1..]))
  }

  ghost predicate StepOrderly(left: Leftovers, s: EngineState, op: Op) {
    match op
    case Event(event, order) =>
      s.phase == Running ==> Orderly(Named(s.config), left, s.exec, HandleEvent(s, event, order).exec)
    case Reload(config) =>
      ReloadOrderly(Named(s.config), Named(config), s.exec.ledger)
    case Start => true
    case Stop => s.exec.ledger == map[]
  }

  ghost predicate AlwaysOrderly(left: Leftovers, s: EngineState, ops: seq<Op>)
    decreases |ops|
  {
    ops == [] || (StepOrderly(left, s, ops[0]) && AlwaysOrderly(left, StepOf(s, ops[0]), ops[1..]))
  }

  /** The ledger is exact now and after every step of the run. */
  ghost predicate AlwaysExact(left: Leftovers, s: EngineState, ops: seq<Op>)
    decreases |ops|
  {
    Exact(Named(s.config), left, s.exec) && (ops == [] || AlwaysExact(left, StepOf(s, ops[0]), ops[1..]))
  }

  lemma StepKeepsExact(left: Leftovers, s: EngineState, op: Op)
    requires Workable(s) && Exact(Named(s.config), left, s.exec) && RealWalk(s, op)
    requires op.Reload? ==> DistinctConfig(op.config)
    ensures Workable(StepOf(s, op))
    ensures Exact(Named(StepOf(s, op).config), left, StepOf(s, op).exec) <==> StepOrderly(left, s, op)
  {
    StepTouches(s, op);
    match op
    case Event(event, order) =>
      if s.phase == Running {
        EventKeepsExact(left, s, event, order);
      }
    case Reload(config) =>
      ReloadKeepsExact(Named(s.config), Named(config), left, s.exec);
    case Start =>
    case Stop =>
      StopForgets(left, s);
  }

  /** The exact ledger, exactly: over every run of events, reloads, starts and stops, whatever
      requests the kernel refuses, it holds after each step just what the ledger determines if
      and only if each step is orderly. */
  lemma {:induction false} ExactIffOrderly(left: Leftovers, s: EngineState, ops: seq<Op>)
    requires Workable(s) && Exact(Named(s.config), left, s.exec) && RealRun(s, ops)
    ensures AlwaysExact(left, s, ops) <==> AlwaysOrderly(left, s, ops)
    decreases |ops|
  {
    if ops != [] {
      var next := StepOf(s, ops[0]);
      StepKeepsExact(left, s, ops[0]);
      if Exact(Named(next.config), left, next.exec) {
        ExactIffOrderly(left, next, ops[1..]);
      }
    }
  }

  lemma {:induction false} ExactAtTheEnd(left: Leftovers, s: EngineState, ops: seq<Op>)
    requires AlwaysExact(left, s, ops)
    ensures Exact(Named(Run(s, ops).config), left, Run(s, ops).exec)
    decreases |ops|
  {
    if ops != [] {
      ExactAtTheEnd(left, StepOf(s, ops[0]), ops[1..]);
    }
  }

  // ---------------------------------------------------------------------------------------
  // Startup
  // ---------------------------------------------------------------------------------------

  /** s has come from x by applications alone. */
  ghost predicate Started(x: ExecState, s: EngineState) {
    && Workable(s) && Extended(Named(s.config), x, s.exec)
    && (WholeOperations(x.router.kernel) ==> NoStrays(Named(s.config), x, s.exec))
  }

  lemma DefaultRulesAreAll(s: EngineState, interface: string) returns (table: nat)
    ensures var t := ApplyDefaultRules(s, interface);
            && t.config == s.config && t.ssids == s.ssids && t.phase == s.phase
            && t.exec == ApplyDefaults(s.exec, s.config.defaultRules, table)
  {
    table := TableFor(s, interface).1;
  }

  lemma DefaultRulesExtend(x: ExecState, s: EngineState, interface: string)
    requires Started(x, s)
    ensures Started(x, ApplyDefaultRules(s, interface))
  {
    var table := DefaultRulesAreAll(s, interface);
    NamedIsDistinct(s.config);
    assert forall r :: r in s.config.defaultRules ==> r in AllRules(s.config);
    DefaultsExtend(Named(s.config), x, s.exec, s.config.defaultRules, table);
  }

  lemma {:induction false} StartupExtends(x: ExecState, s: EngineState, infos: seq<InterfaceInfo>)
    requires Started(x, s)
    ensures var t := ApplyInitial(s, infos);
            Started(x, t) && t.config == s.config && t.ssids == s.ssids && t.phase == s.phase
    decreases |infos|
  {
    if infos != [] {
      if infos[0].isUp && infos[0].name in s.config.interfaces {
        var _ := DefaultRulesAreAll(s, infos[0].name);
        DefaultRulesExtend(x, s, infos[0].name);
        StartupExtends(x, ApplyDefaultRules(s, infos[0].name), infos[1..]);
      } else {
        StartupExtends(x, s, infos[1..]);
      }
    }
  }

  /** A new engine, over whatever it finds in the kernel. */
  ghost predicate FreshOver(left: Leftovers, s: EngineState) {
    && s.exec.ledger == map[] && s.ssids == map[]
    && s.exec.router.kernel.rules == left.rules && s.exec.router.kernel.routes == left.routes
  }

  lemma FreshIsExact(left: Leftovers, s: EngineState)
    requires FreshOver(left, s)
    ensures Exact(Named(s.config), left, s.exec)
  {
    assert Determined(Named(s.config), s.exec.ledger) == {};
  }

  /** Startup over whatever is left, whatever the kernel grants, is exact besides it if and only
      if no application leaves a policy rule untracked and every tracked rule has an entry of
      its own that is no leftover. */
  lemma StartupKeepsExact(left: Leftovers, s: EngineState, infos: seq<InterfaceInfo>)
    requires Workable(s) && FreshOver(left, s)
    ensures var t := ApplyInitial(s, infos);
            && Workable(t) && t.config == s.config && t.ssids == map[] && t.phase == s.phase
            && SameMachine(s.exec, t.exec)
            && Tracked(Named(s.config), t.exec.ledger)
            && (WholeOperations(s.exec.router.kernel) ==> NoStrays(Named(s.config), s.exec, t.exec))
            && (Exact(Named(s.config), left, t.exec) <==>
                && NoStrays(Named(s.config), s.exec, t.exec)
                && OneEach(Named(s.config), t.exec.ledger) && Apart(Determined(Named(s.config), t.exec.ledger), left))
  {
    FreshIsExact(left, s);
    ExtendedByNothing(Named(s.config), s.exec);
    StartupExtends(s.exec, s, infos);
    ExtendingKeepsExact(Named(s.config), left, s.exec, ApplyInitial(s, infos).exec, [], 0);
  }

  /** A leftover route that coincides with a rule's entry hides the rule: the addition is
      answered by EEXIST, the rule is tracked via its own interface, and the kernel goes on
      routing via the old one. */
  lemma LeftoverHidesRule(s: EngineState, left: Leftovers, info: InterfaceInfo, rule: RouteRule, before: string)
    requires s.config == Config([info.name], [], [rule]) && Installable(rule) && info.isUp && before != rule.via
    requires FreshOver(left, s) && Faultless(s.exec.router.kernel) && !s.exec.router.dryRun
    requires left == Leftovers({}, map[EntryFor(rule, TableFor(s, info.name).1) := before])
    ensures var y := ApplyInitial(s, [info]).exec;
            && y.ledger == map[rule.name := ActiveRoute(rule.name, rule.via, TableFor(s, info.name).1)]
            && y.router.kernel.routes == left.routes
            && !Exact(Named(s.config), left, y)
  {
    var (s1, table) := TableFor(s, info.name);
    var next := ApplyDefaultRules(s, info.name);
    assert [info][1..] == [];
    OnlyRuleApplied(s.exec, rule, table);
    assert next.exec == Apply(s.exec, rule, table).0;
    assert ApplyInitial(s, [info]) == ApplyInitial(next, []);
    OneRuleNamed(s.config, rule);
    if Tracked(Named(s.config), next.exec.ledger) {
      assert EntryOf(Named(s.config), next.exec.ledger, rule.name) in Determined(Named(s.config), next.exec.ledger);
    }
  }

  lemma OnlyRuleApplied(x: ExecState, rule: RouteRule, table: nat)
    requires rule.name !in x.ledger
    ensures ApplyDefaults(x, [rule], table) == Apply(x, rule, table).0
  {
    assert [rule][1..] == [];
    assert ApplyDefaults(x, [rule], table) == ApplyDefaults(Apply(x, rule, table).0, [], table);
  }
}
