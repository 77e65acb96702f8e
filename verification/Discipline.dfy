/** A configuration and a use of it under which every step is orderly, and what happens to
    rules that share a destination (src/engine/dispatcher.rs). */
module Discipline {
  import opened Wrappers
  import opened Config
  import opened Kernel
  import opened Rules
  import opened Executor
  import opened State
  import opened Indices
  import opened Dispatcher
  import opened LedgerInvariants
  import opened RuleNames
  import opened Extending
  import opened Draining
  import opened DefaultRules
  import opened Runs
  import opened LedgerRuns

  /** home names the one interface each profiled SSID is joined on. */
  type Home = string -> string

  ghost predicate SsidsAtHome(s: EngineState, home: Home) {
    forall i :: i in s.ssids && ProfileFor(s.config.wifiProfiles, s.ssids[i]).Some? ==> home(s.ssids[i]) == i
  }

  /** Tracked profile rules are in the table of the interface their SSID is joined on. */
  ghost predicate ProfilesAtHome(s: EngineState, home: Home) {
    forall ssid, r :: InProfile(s.config.wifiProfiles, ssid, r) && r.name in s.exec.ledger ==>
      && home(ssid) in s.indices
      && s.exec.ledger[r.name].table == TableIdV4(s.exec.router.base, s.indices[home(ssid)])
  }

  /** Applying rules keeps the profiles at home if it tracks profile rules only there. */
  lemma HomesSurvive(s: EngineState, t: EngineState, rules: seq<RouteRule>, table: nat, home: Home)
    requires ProfilesAtHome(s, home) && OnlyTracks(s.exec.ledger, t.exec.ledger, rules, table)
    requires t.config == s.config && t.exec.router.base == s.exec.router.base
    requires forall n :: n in s.indices ==> n in t.indices && t.indices[n] == s.indices[n]
    requires forall ssid, r, q :: InProfile(s.config.wifiProfiles, ssid, r) && q in rules && q.name == r.name ==>
               home(ssid) in t.indices && table == TableIdV4(t.exec.router.base, t.indices[home(ssid)])
    ensures ProfilesAtHome(t, home)
  {
    forall ssid, r | InProfile(s.config.wifiProfiles, ssid, r) && r.name in t.exec.ledger
      ensures home(ssid) in t.indices
      ensures t.exec.ledger[r.name].table == TableIdV4(t.exec.router.base, t.indices[home(ssid)])
    {
      if !(r.name in s.exec.ledger && t.exec.ledger[r.name] == s.exec.ledger[r.name]) {
        var q :| q in rules && q.name == r.name;
      }
    }
  }

  lemma DefaultsStayHome(s: EngineState, interface: string, home: Home)
    requires DistinctNames(AllRules(s.config)) && ProfilesAtHome(s, home)
    ensures ProfilesAtHome(ApplyDefaultRules(s, interface), home)
    ensures StaysPut(s.exec.ledger, ApplyDefaultRules(s, interface).exec.ledger)
  {
    if s.config.defaultRules != [] {
      var rules, table := s.config.defaultRules, TableFor(s, interface).1;
      DefaultsTrack(s.exec, rules, table);
      DefaultsKeepBase(s.exec, rules, table);
      forall ssid, r, q | InProfile(s.config.wifiProfiles, ssid, r) && q in rules && q.name == r.name
        ensures false
      {
        DefaultsAreNotInProfiles(s.config, q, ssid, r);
      }
      HomesSurvive(s, ApplyDefaultRules(s, interface), rules, table, home);
    }
  }

  lemma ProfileStaysHome(s: EngineState, interface: string, ssid: string, home: Home)
    requires DistinctNames(AllRules(s.config)) && ProfilesAtHome(s, home)
    requires ProfileFor(s.config.wifiProfiles, ssid).Some? && home(ssid) == interface
    ensures ProfilesAtHome(ApplyForInterface(s, interface, Some(ssid)), home)
    ensures StaysPut(s.exec.ledger, ApplyForInterface(s, interface, Some(ssid)).exec.ledger)
  {
    var rules := ProfileFor(s.config.wifiProfiles, ssid).value.rules;
    var table := TableFor(s, interface).1;
    var t := ApplyForInterface(s, interface, Some(ssid));
    ProfileTracks(s.exec, rules, table);
    ProfileKeepsBase(s.exec, rules, table);
    forall other, r, q | InProfile(s.config.wifiProfiles, other, r) && q in rules && q.name == r.name
      ensures other == ssid
    {
      if other != ssid {
        ProfileNamesApart(s.config, ssid, other, q, r);
      }
    }
    HomesSurvive(s, t, rules, table, home);
    HomeRulesStayPut(s, rules, table, ssid, home);
  }

  lemma HomeRulesStayPut(s: EngineState, rules: seq<RouteRule>, table: nat, ssid: string, home: Home)
    requires ProfilesAtHome(s, home) && ProfileFor(s.config.wifiProfiles, ssid).Some?
    requires rules == ProfileFor(s.config.wifiProfiles, ssid).value.rules && table == TableFor(s, home(ssid)).1
    ensures StaysPut(s.exec.ledger, ApplyProfile(s.exec, rules, table).ledger)
  {
    var y := ApplyProfile(s.exec, rules, table);
    ProfileTracks(s.exec, rules, table);
    forall n | n in s.exec.ledger && n in y.ledger ensures y.ledger[n].table == s.exec.ledger[n].table {
      if y.ledger[n] != s.exec.ledger[n] {
        var q :| q in rules && q.name == n;
        assert InProfile(s.config.wifiProfiles, ssid, q);
      }
    }
  }

  lemma ApplyingStaysHome(s: EngineState, interface: string, ssid: Option<string>, home: Home)
    requires DistinctNames(AllRules(s.config)) && ProfilesAtHome(s, home)
    requires ssid.Some? && ProfileFor(s.config.wifiProfiles, ssid.value).Some? ==> home(ssid.value) == interface
    ensures ProfilesAtHome(ApplyForInterface(s, interface, ssid), home)
    ensures StaysPut(s.exec.ledger, ApplyForInterface(s, interface, ssid).exec.ledger)
  {
    if ssid.Some? && ProfileFor(s.config.wifiProfiles, ssid.value).Some? {
      ProfileStaysHome(s, interface, ssid.value, home);
    } else {
      DefaultsStayHome(s, interface, home);
    }
  }

  /** The event joins a profiled SSID only on its home interface. */
  ghost predicate JoinsAtHome(config: Config, event: NetworkEvent, home: Home) {
    event.WifiConnected? && ProfileFor(config.wifiProfiles, event.ssid).Some? ==> home(event.ssid) == event.interface
  }

  /** No two rules have one name or one destination, and no leftover has a rule's destination. */
  ghost predicate Disciplined(config: Config, left: Leftovers) {
    && DistinctNames(AllRules(config)) && DistinctDestinations(AllRules(config))
    && forall e, r :: IsLeft(left, e) && r in AllRules(config) && HasDestination(r) ==> e.dst != GetDestination(r).value
  }

  predicate IsLeft(left: Leftovers, e: Entry) {
    e in left.rules || e in left.routes
  }

  lemma DisciplinedIsDistinct(config: Config, left: Leftovers)
    requires Disciplined(config, left)
    ensures DistinctConfig(config)
  {
  }

  /** No leftover has the destination of a tracked rule. */
  lemma ApartFromLeftovers(config: Config, left: Leftovers, ledger: Ledger)
    requires Disciplined(config, left) && Tracked(Named(config), ledger)
    ensures forall e, f :: e in Determined(Named(config), ledger) && IsLeft(left, f) ==> e.dst != f.dst
    ensures Apart(Determined(Named(config), ledger), left)
  {
    RulesMapMembers(AllRules(config));
    forall e, f | e in Determined(Named(config), ledger) && IsLeft(left, f) ensures e.dst != f.dst {
      var n :| n in ledger && EntryOf(Named(config), ledger, n) == e;
      assert Named(config)[n] in AllRules(config);
    }
    forall e | e in Determined(Named(config), ledger) ensures !IsLeft(left, e) {
    }
  }

  /** With one rule per destination there is nothing below an entry to its destination. */
  lemma DisciplinedGoesFromBelow(left: Leftovers, s: EngineState, y: ExecState)
    requires Disciplined(s.config, left) && Exact(Named(s.config), left, s.exec) && Tracked(Named(s.config), y.ledger)
    ensures FromBelow(Named(s.config), s.exec, y)
  {
    var byName := Named(s.config);
    ApartFromLeftovers(s.config, left, s.exec.ledger);
    forall e, f | e in Determined(byName, s.exec.ledger) && f in s.exec.router.kernel.routes && SameGroup(e, f)
      ensures e == f
    {
      var n :| n in s.exec.ledger && EntryOf(byName, s.exec.ledger, n) == e;
      assert IsLeft(left, f) ==> e.dst != f.dst;
      assert f in Determined(byName, s.exec.ledger);
      var m :| m in s.exec.ledger && EntryOf(byName, s.exec.ledger, m) == f;
      DestinationNamesRule(s.config, m, n);
    }
  }

  ghost predicate Homely(s: EngineState, home: Home) {
    SsidsAtHome(s, home) && ProfilesAtHome(s, home)
  }

  /** Asking for rules moves nothing and keeps everything at home. */
  lemma AskingStaysHome(s: EngineState, event: NetworkEvent, order: seq<string>, home: Home)
    requires s.phase == Running && DistinctNames(AllRules(s.config)) && Homely(s, home)
    requires AsksForRules(s, event) && JoinsAtHome(s.config, event, home)
    ensures Homely(HandleEvent(s, event, order), home)
    ensures StaysPut(s.exec.ledger, HandleEvent(s, event, order).exec.ledger)
  {
    var mid := s.(interfaces := ApplyEvent(s.interfaces, event), ssids := MoveSsid(s.ssids, event));
    AskingIsOneStep(s, event, order);
    ApplyingStaysHome(mid, event.interface, SsidNow(s, event), home);
  }

  lemma DownStaysHome(s: EngineState, event: NetworkEvent, order: seq<string>, home: Home)
    requires s.phase == Running && TakesDown(event) && Homely(s, home)
    requires SameMachine(s.exec, HandleEvent(s, event, order).exec)
    requires forall n :: n in HandleEvent(s, event, order).exec.ledger ==>
               n in s.exec.ledger && HandleEvent(s, event, order).exec.ledger[n] == s.exec.ledger[n]
    ensures Homely(HandleEvent(s, event, order), home)
  {
  }

  lemma DownIsOrderly(left: Leftovers, s: EngineState, interface: string, order: seq<string>)
    requires Workable(s) && Disciplined(s.config, left) && WholeOperations(s.exec.router.kernel)
    requires Exact(Named(s.config), left, s.exec) && ListsVictims(s.exec.ledger, interface, order)
    ensures Orderly(Named(s.config), left, s.exec, HandleDown(s, order).exec)
  {
    var byName := Named(s.config);
    var t := HandleDown(s, order);
    ExactIsInstalled(byName, left, s.exec);
    DownDrains(s, interface, order);
    DeletionsThatSucceedAreWhole(s.exec, byName, s.exec.ledger, order);
    DisciplinedGoesFromBelow(left, s, t.exec);
    DrainedIsOrderly(byName, left, s.exec, t.exec);
  }

  lemma AskingIsOrderly(left: Leftovers, s: EngineState, event: NetworkEvent, order: seq<string>)
    requires s.phase == Running && Workable(s) && Disciplined(s.config, left) && WholeOperations(s.exec.router.kernel)
    requires Exact(Named(s.config), left, s.exec) && AsksForRules(s, event)
    requires StaysPut(s.exec.ledger, HandleEvent(s, event, order).exec.ledger)
    ensures Orderly(Named(s.config), left, s.exec, HandleEvent(s, event, order).exec)
  {
    var t := HandleEvent(s, event, order);
    ExactIsInstalled(Named(s.config), left, s.exec);
    var _, _ := AskingExtends(s, event, order);
    DestinationsGiveOneEach(s.config, t.exec.ledger);
    ApartFromLeftovers(s.config, left, t.exec.ledger);
    ExtendedIsOrderly(Named(s.config), left, s.exec, t.exec);
  }

  lemma EventIsOrderly(left: Leftovers, s: EngineState, event: NetworkEvent, order: seq<string>, home: Home)
    requires s.phase == Running && Workable(s) && Disciplined(s.config, left)
    requires WholeOperations(s.exec.router.kernel)
    requires Exact(Named(s.config), left, s.exec) && Homely(s, home)
    requires ValidOrder(s, event, order) && JoinsAtHome(s.config, event, home)
    ensures Orderly(Named(s.config), left, s.exec, HandleEvent(s, event, order).exec)
    ensures Homely(HandleEvent(s, event, order), home)
  {
    if TakesDown(event) {
      ExactIsInstalled(Named(s.config), left, s.exec);
      DownIsOneStep(s, event, order);
      DownIsOrderly(left, s, event.interface, order);
      DownDrains(s, event.interface, order);
      DownStaysHome(s, event, order, home);
    } else if AsksForRules(s, event) {
      AskingStaysHome(s, event, order, home);
      AskingIsOrderly(left, s, event, order);
    } else {
      OthersAreQuiet(s, event, order);
      NothingIsOrderly(Named(s.config), left, s.exec);
    }
  }

  /** A run of events and starts, each walk of the ledger being a real one. */
  ghost predicate EventRun(s: EngineState, ops: seq<Op>)
    decreases |ops|
  {
    ops == [] || ((ops[0].Start? || ops[0].Event?) && RealWalk(s, ops[0]) && EventRun(StepOf(s, ops[0]), ops[1..]))
  }

  lemma {:induction false} HomelyRunIsExact(left: Leftovers, s: EngineState, ops: seq<Op>, home: Home)
    requires Workable(s) && Disciplined(s.config, left) && Exact(Named(s.config), left, s.exec) && Homely(s, home)
    requires WholeOperations(s.exec.router.kernel)
    requires EventRun(s, ops) && forall op :: op in ops && op.Event? ==> JoinsAtHome(s.config, op.event, home)
    ensures AlwaysExact(left, s, ops)
    decreases |ops|
  {
    if ops != [] {
      assert ops[0] in ops && forall op :: op in ops[1..] ==> op in ops;
      StepKeepsExact(left, s, ops[0]);
      StepTouches(s, ops[0]);
      if ops[0].Event? && s.phase == Running {
        EventIsOrderly(left, s, ops[0].event, ops[0].order, home);
        EventKeepsExact(left, s, ops[0].event, ops[0].order);
      }
      HomelyRunIsExact(left, StepOf(s, ops[0]), ops[1..], home);
    }
  }

  /** The interface of the first event that joins the SSID. */
  function FirstJoin(ops: seq<Op>, ssid: string): string {
    if ops == [] then ""
    else if ops[0].Event? && ops[0].event.WifiConnected? && ops[0].event.ssid == ssid then ops[0].event.interface
    else FirstJoin(ops[1..], ssid)
  }

  predicate Joins(op: Op, ssid: string) {
    op.Event? && op.event.WifiConnected? && op.event.ssid == ssid
  }

  /** No SSID that has a profile is joined on two interfaces. */
  ghost predicate OneInterfacePerSsid(config: Config, ops: seq<Op>) {
    forall a, b, ssid :: a in ops && b in ops && Joins(a, ssid) && Joins(b, ssid)
                         && ProfileFor(config.wifiProfiles, ssid).Some? ==>
      a.event.interface == b.event.interface
  }

  lemma {:induction false} FirstJoinIsAJoin(ops: seq<Op>, ssid: string, op: Op)
    requires op in ops && Joins(op, ssid)
    ensures exists first :: first in ops && Joins(first, ssid) && first.event.interface == FirstJoin(ops, ssid)
  {
    if Joins(ops[0], ssid) {
      assert ops[0] in ops;
    } else {
      FirstJoinIsAJoin(ops[1..], ssid, op);
      var first :| first in ops[1..] && Joins(first, ssid) && first.event.interface == FirstJoin(ops[1..], ssid);
      assert first in ops;
    }
  }

  lemma {:induction false} StartupStaysHome(s: EngineState, infos: seq<InterfaceInfo>, home: Home)
    requires DistinctNames(AllRules(s.config)) && Homely(s, home)
    ensures Homely(ApplyInitial(s, infos), home)
    decreases |infos|
  {
    if infos != [] {
      if infos[0].isUp && infos[0].name in s.config.interfaces {
        DefaultsStayHome(s, infos[0].name, home);
        StartupStaysHome(ApplyDefaultRules(s, infos[0].name), infos[1..], home);
      } else {
        StartupStaysHome(s, infos[1..], home);
      }
    }
  }

  /** The exact ledger under discipline: over a kernel with whatever routes are left over,
      through startup and any run of events, with one rule per name and destination, no
      leftover for a rule's destination, no profiled SSID joined on two interfaces, and
      operations that complete or change nothing, the ledger is exact after every step. */
  lemma LedgerIsExact(left: Leftovers, s: EngineState, infos: seq<InterfaceInfo>, ops: seq<Op>)
    requires Disciplined(s.config, left) && WholeOperations(s.exec.router.kernel) && !s.exec.router.dryRun
    requires FreshOver(left, s)
    requires EventRun(ApplyInitial(s, infos), ops) && OneInterfacePerSsid(s.config, ops)
    ensures AlwaysExact(left, ApplyInitial(s, infos), ops)
  {
    var t := ApplyInitial(s, infos);
    var home := ssid => FirstJoin(ops, ssid);
    DisciplinedIsDistinct(s.config, left);
    StartupKeepsExact(left, s, infos);
    DestinationsGiveOneEach(s.config, t.exec.ledger);
    ApartFromLeftovers(s.config, left, t.exec.ledger);
    StartupStaysHome(s, infos, home);
    forall op | op in ops && op.Event? ensures JoinsAtHome(s.config, op.event, home) {
      if op.event.WifiConnected? && ProfileFor(s.config.wifiProfiles, op.event.ssid).Some? {
        FirstJoinIsAJoin(ops, op.event.ssid, op);
      }
    }
    HomelyRunIsExact(left, t, ops, home);
  }

  // ---------------------------------------------------------------------------------------
  // A primary rule and its backup
  // ---------------------------------------------------------------------------------------

  lemma OneVictim(ledger: Ledger, interface: string, n: string, order: seq<string>)
    requires ListsVictims(ledger, interface, order)
    requires forall m :: m in ledger && ledger[m].interface == interface <==> m == n
    ensures order == [n]
  {
    assert 1 < |order| ==> order[0] != order[1];
    assert n in order;
    forall k | 0 <= k < |order| ensures order[k] == n {
      assert order[k] in order;
    }
  }

  lemma OnlyOneRemoved(x: ExecState, byName: ByName, tables: Ledger, n: string)
    requires n in byName && n in tables
    ensures RemoveAll(x, byName, tables, [n]) == Remove(x, byName[n], tables[n].table).0
  {
    assert [n][1..] == [];
    assert RemoveAll(x, byName, tables, [n]) == RemoveAll(Remove(x, byName[n], tables[n].table).0, byName, tables, []);
  }

  lemma TwoRulesNamed(config: Config, p: RouteRule, q: RouteRule)
    requires config.defaultRules == [p, q] && config.wifiProfiles == [] && p.name != q.name
    ensures Named(config) == map[p.name := p, q.name := q] && DistinctConfig(config)
  {
    assert ProfileRules(config.wifiProfiles) == [] && AllRules(config) == [p, q];
    assert [p, q][..1] == [p] && [p][..0] == [];
    assert RulesMap([p]) == RulesMap([p][..0])[p.name := p];
    assert RulesMap([p, q]) == RulesMap([p, q][..1])[q.name := q];
  }

  /** q is a backup of p: another rule for its destination, of worse priority, via another
      interface. */
  predicate IsBackup(p: RouteRule, q: RouteRule) {
    && Installable(p) && Installable(q) && p.name != q.name && p.via != q.via
    && GetDestination(p) == GetDestination(q) && p.priority < q.priority
  }

  function PairLedger(p: RouteRule, q: RouteRule, table: nat): Ledger {
    map[p.name := ActiveRoute(p.name, p.via, table), q.name := ActiveRoute(q.name, q.via, table)]
  }

  lemma PairApplied(x: ExecState, p: RouteRule, q: RouteRule, table: nat)
    requires Faultless(x.router.kernel) && !x.router.dryRun && x.ledger == map[] && IsBackup(p, q)
    ensures ApplyDefaults(x, [p, q], table).ledger == PairLedger(p, q, table)
  {
    var first := Apply(x, p, table).0;
    assert [p, q][1..] == [q];
    ApplyOutcome(x, p, table);
    assert ApplyDefaults(x, [p, q], table) == ApplyDefaults(first, [q], table);
    OnlyRuleApplied(first, q, table);
    ApplyOutcome(first, q, table);
  }

  lemma PairDetermines(byName: ByName, p: RouteRule, q: RouteRule, table: nat)
    requires byName == map[p.name := p, q.name := q] && IsBackup(p, q)
    ensures var ledger := PairLedger(p, q, table);
            && Tracked(byName, ledger) && OneEach(byName, ledger)
            && Determined(byName, ledger) == {EntryFor(p, table), EntryFor(q, table)}
  {
    var ledger := PairLedger(p, q, table);
    assert EntryOf(byName, ledger, p.name) == EntryFor(p, table);
    assert EntryOf(byName, ledger, q.name) == EntryFor(q, table);
    assert ledger.Keys == {p.name, q.name};
  }

  /** Over an empty kernel startup installs both, and the ledger is exact. */
  lemma PairStarts(s: EngineState, infos: seq<InterfaceInfo>, p: RouteRule, q: RouteRule, table: nat)
    requires s.config.wifiProfiles == [] && s.config.defaultRules == [p, q] && IsBackup(p, q)
    requires FreshOver(NOTHING_LEFT, s) && Faultless(s.exec.router.kernel) && !s.exec.router.dryRun
    requires FirstUp(s.config, infos).Some? && table == TableFor(s, FirstUp(s.config, infos).value).1
    ensures var t := ApplyInitial(s, infos);
            && t.config == s.config && t.phase == s.phase && SameMachine(s.exec, t.exec)
            && t.exec.ledger == PairLedger(p, q, table)
            && Exact(Named(s.config), NOTHING_LEFT, t.exec)
  {
    TwoRulesNamed(s.config, p, q);
    StartupInstallsOnce(s, infos);
    var _ := DefaultRulesAreAll(s, FirstUp(s.config, infos).value);
    PairApplied(s.exec, p, q, table);
    PairDetermines(Named(s.config), p, q, table);
    StartupKeepsExact(NOTHING_LEFT, s, infos);
  }

  /** Removing the entry of higher metric of two takes the route of lower metric. */
  lemma HigherTakesLower(x: ExecState, rule: RouteRule, table: nat, a: Entry, b: Entry)
    requires HasDestination(rule) && table <= MAX_TABLE_ID && !x.router.dryRun && Faultless(x.router.kernel)
    requires b == EntryFor(rule, table) && SameGroup(a, b) && a.rank < b.rank
    requires x.router.kernel.rules == {a, b} && x.router.kernel.routes.Keys == {a, b}
    ensures var y := Remove(x, rule, table).0;
            && y.ledger == x.ledger - {rule.name}
            && y.router.kernel.rules == {a} && y.router.kernel.routes == map[b := x.router.kernel.routes[b]]
  {
    assert a in x.router.kernel.routes && b in x.router.kernel.routes;
    RemoveOutcome(x, rule, table);
    assert LowestRoute(x.router.kernel.routes, b.dst, table) == a;
    assert {a, b} - {b} == {a};
  }

  lemma PairInKernel(byName: ByName, x: ExecState, p: RouteRule, q: RouteRule, table: nat)
    requires byName == map[p.name := p, q.name := q] && IsBackup(p, q)
    requires x.ledger == PairLedger(p, q, table) && Exact(byName, NOTHING_LEFT, x)
    ensures x.router.kernel.rules == {EntryFor(p, table), EntryFor(q, table)} == x.router.kernel.routes.Keys
    ensures x.router.kernel.routes[EntryFor(q, table)] == q.via
  {
    PairDetermines(byName, p, q, table);
    assert x.router.kernel.routes[EntryOf(byName, x.ledger, q.name)] == q.via;
  }

  lemma BackupGoes(s: EngineState, p: RouteRule, q: RouteRule, table: nat, order: seq<string>)
    requires IsBackup(p, q) && Named(s.config) == map[p.name := p, q.name := q] && table <= MAX_TABLE_ID
    requires s.exec.ledger == PairLedger(p, q, table) && Exact(Named(s.config), NOTHING_LEFT, s.exec)
    requires Faultless(s.exec.router.kernel) && !s.exec.router.dryRun && ListsVictims(s.exec.ledger, q.via, order)
    ensures var y := HandleDown(s, order).exec;
            && y.ledger == map[p.name := ActiveRoute(p.name, p.via, table)]
            && y.router.kernel.routes == map[EntryFor(q, table) := q.via]
  {
    OneVictim(s.exec.ledger, q.via, q.name, order);
    PairInKernel(Named(s.config), s.exec, p, q, table);
    OnlyOneRemoved(s.exec, Named(s.config), s.exec.ledger, q.name);
    HigherTakesLower(s.exec, q, table, EntryFor(p, table), EntryFor(q, table));
  }

  lemma PrimaryIsMissing(byName: ByName, left: Leftovers, y: ExecState, p: RouteRule, table: nat)
    requires p.name in y.ledger && y.ledger[p.name].table == table && HasDestination(p)
    requires p.name in byName && byName[p.name] == p && EntryFor(p, table) !in y.router.kernel.routes
    ensures !Exact(byName, left, y) && !AllInstalled(byName, y)
  {
    if Tracked(byName, y.ledger) {
      assert EntryOf(byName, y.ledger, p.name) in Determined(byName, y.ledger);
    }
  }

  lemma BackupDownBreaks(s: EngineState, p: RouteRule, q: RouteRule, table: nat, order: seq<string>)
    requires s.phase == Running && ValidOrder(s, InterfaceChanged(q.via, Down), order) && table <= MAX_TABLE_ID
    requires IsBackup(p, q) && s.config.wifiProfiles == [] && s.config.defaultRules == [p, q]
    requires s.exec.ledger == PairLedger(p, q, table) && Exact(Named(s.config), NOTHING_LEFT, s.exec)
    requires Faultless(s.exec.router.kernel) && !s.exec.router.dryRun
    ensures var y := HandleEvent(s, InterfaceChanged(q.via, Down), order).exec;
            && y.ledger == map[p.name := ActiveRoute(p.name, p.via, table)]
            && y.router.kernel.routes == map[EntryFor(q, table) := q.via]
            && !Exact(Named(s.config), NOTHING_LEFT, y) && !AllInstalled(Named(s.config), y)
  {
    TwoRulesNamed(s.config, p, q);
    DownIsOneStep(s, InterfaceChanged(q.via, Down), order);
    BackupGoes(s, p, q, table, order);
    PrimaryIsMissing(Named(s.config), NOTHING_LEFT, HandleDown(s, order).exec, p, table);
  }

  /** A primary rule and its backup, from an empty kernel through startup: the ledger is exact
      until the backup's interface goes down. Then the primary's route is deleted in place of the
      backup's: the primary stays tracked without a route, and the backup's route stays in the
      kernel via the interface that is down. */
  lemma BackupDownTakesPrimary(s: EngineState, infos: seq<InterfaceInfo>, p: RouteRule, q: RouteRule, table: nat,
      order: seq<string>)
    requires s.config.wifiProfiles == [] && s.config.defaultRules == [p, q] && IsBackup(p, q)
    requires FreshOver(NOTHING_LEFT, s) && Faultless(s.exec.router.kernel) && !s.exec.router.dryRun
    requires FirstUp(s.config, infos).Some? && table == TableFor(s, FirstUp(s.config, infos).value).1
    requires s.phase == Running && table <= MAX_TABLE_ID
    requires ValidOrder(ApplyInitial(s, infos), InterfaceChanged(q.via, Down), order)
    ensures var t := ApplyInitial(s, infos);
            var y := HandleEvent(t, InterfaceChanged(q.via, Down), order).exec;
            && t.exec.ledger == PairLedger(p, q, table) && Exact(Named(s.config), NOTHING_LEFT, t.exec)
            && y.ledger == map[p.name := ActiveRoute(p.name, p.via, table)]
            && y.router.kernel.routes == map[EntryFor(q, table) := q.via]
            && !Exact(Named(s.config), NOTHING_LEFT, y) && !AllInstalled(Named(s.config), y)
  {
    PairStarts(s, infos, p, q, table);
    BackupDownBreaks(ApplyInitial(s, infos), p, q, table, order);
  }

  // ---------------------------------------------------------------------------------------
  // One SSID on two interfaces, and two rules in one place
  // ---------------------------------------------------------------------------------------

  lemma OneProfileRuleNamed(config: Config, ssid: string, profile: WifiProfile, rule: RouteRule)
    requires config.defaultRules == [] && config.wifiProfiles == [(ssid, profile)] && profile.rules == [rule]
    ensures Named(config) == map[rule.name := rule] && ProfileFor(config.wifiProfiles, ssid) == Some(profile)
  {
    assert ProfileRules(config.wifiProfiles[1..]) == [];
    assert ProfileRules(config.wifiProfiles) == [rule] && AllRules(config) == [rule];
    assert [rule][..0] == [];
    assert RulesMap([rule]) == RulesMap([rule][..0])[rule.name := rule];
  }

  /** A join of the profile's SSID applies its one rule in the interface's table. */
  lemma JoinApplies(s: EngineState, interface: string, ssid: string, profile: WifiProfile, rule: RouteRule)
    requires s.phase == Running && ProfileFor(s.config.wifiProfiles, ssid) == Some(profile) && profile.rules == [rule]
    requires interface in s.indices
    ensures var t := HandleEvent(s, WifiConnected(interface, ssid), []);
            && t.config == s.config && t.phase == s.phase && t.indices == s.indices
            && t.exec == Apply(s.exec, rule, TableIdV4(s.exec.router.base, s.indices[interface])).0
  {
    var table := TableIdV4(s.exec.router.base, s.indices[interface]);
    assert [rule][1..] == [];
    assert ApplyProfile(s.exec, [rule], table) == ApplyProfile(Apply(s.exec, rule, table).0, [], table);
  }

  /** The profile's one rule is tracked in this table, and the ledger is exact over nothing. */
  ghost predicate JoinedIn(s: EngineState, ssid: string, profile: WifiProfile, rule: RouteRule, table: nat) {
    && s.phase == Running && Faultless(s.exec.router.kernel) && !s.exec.router.dryRun
    && s.config == Config(["wlan0", "wlan1"], [(ssid, profile)], []) && profile.rules == [rule] && Installable(rule)
    && s.indices == map["wlan0" := 0, "wlan1" := 1]
    && rule.name in s.exec.ledger && s.exec.ledger[rule.name].table == table
    && Exact(Named(s.config), NOTHING_LEFT, s.exec)
  }

  lemma FirstJoinTracks(s: EngineState, ssid: string, profile: WifiProfile, rule: RouteRule)
    requires s.phase == Running && FreshOver(NOTHING_LEFT, s)
    requires Faultless(s.exec.router.kernel) && !s.exec.router.dryRun
    requires s.config == Config(["wlan0", "wlan1"], [(ssid, profile)], [])
    requires profile.rules == [rule] && Installable(rule)
    requires s.indices == NewIndices(s.config.interfaces)
    ensures var t := HandleEvent(s, WifiConnected("wlan0", ssid), []);
            t.exec.router.base == s.exec.router.base && JoinedIn(t, ssid, profile, rule, s.exec.router.base)
  {
    TwoNewIndices("wlan0", "wlan1");
    OneProfileRuleNamed(s.config, ssid, profile, rule);
    JoinApplies(s, "wlan0", ssid, profile, rule);
    FreshIsExact(NOTHING_LEFT, s);
    ApplyOutcome(s.exec, rule, s.exec.router.base);
    ApplyKeepsExact(Named(s.config), NOTHING_LEFT, s.exec, rule, s.exec.router.base);
  }

  lemma RetrackingElsewhere(byName: ByName, x: ExecState, rule: RouteRule, table: nat)
    requires Exact(byName, NOTHING_LEFT, x) && Registered(byName, rule) && Installable(rule)
    requires rule.name in x.ledger && x.ledger[rule.name].table != table
    requires Faultless(x.router.kernel) && !x.router.dryRun
    ensures var y := Apply(x, rule, table).0;
            && rule.name in y.ledger && y.ledger[rule.name].table == table
            && EntryFor(rule, x.ledger[rule.name].table) in y.router.kernel.rules
            && !Exact(byName, NOTHING_LEFT, y)
  {
    assert EntryOf(byName, x.ledger, rule.name) in Determined(byName, x.ledger);
    ApplyOutcome(x, rule, table);
    ApplyKeepsExact(byName, NOTHING_LEFT, x, rule, table);
  }

  lemma SecondJoinMoves(s: EngineState, ssid: string, profile: WifiProfile, rule: RouteRule)
    requires JoinedIn(s, ssid, profile, rule, s.exec.router.base)
    ensures var base, t := s.exec.router.base, HandleEvent(s, WifiConnected("wlan1", ssid), []);
            && rule.name in t.exec.ledger && t.exec.ledger[rule.name].table == base + 1
            && EntryFor(rule, base) in t.exec.router.kernel.rules
            && !Exact(Named(s.config), NOTHING_LEFT, t.exec)
  {
    OneProfileRuleNamed(s.config, ssid, profile, rule);
    JoinApplies(s, "wlan1", ssid, profile, rule);
    RetrackingElsewhere(Named(s.config), s.exec, rule, s.exec.router.base + 1);
  }

  /** A profiled SSID joined on a second interface takes its rule to another table, and the
      entries in the first one are left behind, tracked by nothing. */
  lemma SecondInterfaceMovesRule(s: EngineState, ssid: string, profile: WifiProfile, rule: RouteRule)
    requires s.phase == Running && FreshOver(NOTHING_LEFT, s)
    requires Faultless(s.exec.router.kernel) && !s.exec.router.dryRun
    requires s.config == Config(["wlan0", "wlan1"], [(ssid, profile)], [])
    requires profile.rules == [rule] && Installable(rule)
    requires s.indices == NewIndices(s.config.interfaces)
    ensures var base, t := s.exec.router.base, HandleEvent(s, WifiConnected("wlan0", ssid), []);
            var u := HandleEvent(t, WifiConnected("wlan1", ssid), []);
            && Exact(Named(s.config), NOTHING_LEFT, t.exec)
            && rule.name in u.exec.ledger && u.exec.ledger[rule.name].table == base + 1
            && EntryFor(rule, base) in u.exec.router.kernel.rules
            && !Exact(Named(s.config), NOTHING_LEFT, u.exec)
  {
    FirstJoinTracks(s, ssid, profile, rule);
    SecondJoinMoves(HandleEvent(s, WifiConnected("wlan0", ssid), []), ssid, profile, rule);
  }

  lemma TwoNewIndices(a: string, b: string)
    requires a != b
    ensures NewIndices([a, b]) == map[a := 0, b := 1]
  {
    assert [a, b][..1] == [a] && [a][..0] == [];
    assert NewIndices([a]) == NewIndices([a][..0])[a := 0];
    assert NewIndices([a, b]) == NewIndices([a, b][..1])[b := 1];
  }

  /** Two rules with one destination and one priority take one place: the second is tracked via
      its own interface, and the kernel routes via the first one's. */
  lemma SameSlotHidesSecond(x: ExecState, r: RouteRule, q: RouteRule, table: nat)
    requires Faultless(x.router.kernel) && !x.router.dryRun && x.ledger == map[]
    requires x.router.kernel.rules == {} && x.router.kernel.routes == map[]
    requires Installable(r) && Installable(q) && SameSlot(r, q) && r.name != q.name && r.via != q.via
    ensures var y := ApplyDefaults(x, [r, q], table);
            && q.name in y.ledger && y.ledger[q.name].interface == q.via
            && y.router.kernel.routes == map[EntryFor(q, table) := r.via]
  {
    var first := Apply(x, r, table).0;
    assert [r, q][1..] == [q] && [q][1..] == [];
    assert first.router.kernel.routes == map[EntryFor(r, table) := r.via] && EntryFor(q, table) == EntryFor(r, table);
    assert ApplyDefaults(x, [r, q], table) == ApplyDefaults(first, [q], table);
    OnlyRuleApplied(first, q, table);
  }
}
