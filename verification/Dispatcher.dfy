/** The event dispatcher as one state machine over the kernel (src/engine/dispatcher.rs). */
module Dispatcher {
  import opened Wrappers
  import opened Net
  import opened Config
  import opened Kernel
  import opened Executor
  import opened State
  import opened Indices

  datatype Phase = Initializing | Running | Stopping | Stopped

  datatype EngineState = EngineState(
    config: Config,
    interfaces: Interfaces,
    exec: ExecState,
    ssids: map<string, string>,
    indices: IndexMap<string>,
    phase: Phase)

  /** The interface's table, assigning an index when it has none. */
  function TableFor(s: EngineState, interface: string): (EngineState, nat) {
    var (indices, index) := AssignIndex(s.indices, interface);
    (s.(indices := indices), TableIdV4(s.exec.router.base, index))
  }

  /** Rules already tracked are skipped; a failing rule is logged and the next one tried. */
  function ApplyDefaults(x: ExecState, rules: seq<RouteRule>, table: nat): ExecState
    decreases |rules|
  {
    if rules == [] then x
    else ApplyDefaults(if rules[0].name in x.ledger then x else Apply(x, rules[0], table).0, rules[1..], table)
  }

  function ApplyDefaultRules(s: EngineState, interface: string): EngineState {
    if s.config.defaultRules == [] then s
    else
      var (s1, table) := TableFor(s, interface);
      s1.(exec := ApplyDefaults(s1.exec, s1.config.defaultRules, table))
  }

  /** The profile of the SSID if there is one, else the default rules. */
  function ApplyForInterface(s: EngineState, interface: string, ssid: Option<string>): EngineState {
    if ssid.Some? && ProfileFor(s.config.wifiProfiles, ssid.value).Some? then
      var (s1, table) := TableFor(s, interface);
      s1.(exec := ApplyProfile(s1.exec, ProfileFor(s.config.wifiProfiles, ssid.value).value.rules, table))
    else ApplyDefaultRules(s, interface)
  }

  /** Rules by name: of two rules with one name the later wins. */
  function RulesMap(rules: seq<RouteRule>): map<string, RouteRule> {
    if rules == [] then map[]
    else
      var last := rules[|rules| - 1];
      RulesMap(rules[..|rules| - 1])[last.name := last]
  }

  /** Removes the named rules from the tables they were tracked in when the removal began. */
  function RemoveAll(x: ExecState, byName: map<string, RouteRule>, tables: Ledger, order: seq<string>): ExecState
    decreases |order|
  {
    if order == [] then x
    else
      var n := order[0];
      RemoveAll(if n in byName && n in tables then Remove(x, byName[n], tables[n].table).0 else x,
                byName, tables, order[1..])
  }

  /** order lists each tracked rule that goes via the interface once. */
  ghost predicate ListsVictims(ledger: Ledger, interface: string, order: seq<string>) {
    && (forall n :: n in order <==> n in ledger && ledger[n].interface == interface)
    && forall i, j :: 0 <= i < j < |order| ==> order[i] != order[j]
  }

  function HandleDown(s: EngineState, order: seq<string>): EngineState {
    s.(exec := RemoveAll(s.exec, RulesMap(AllRules(s.config)), s.exec.ledger, order))
  }

  predicate TakesDown(event: NetworkEvent) {
    event.InterfaceChanged? && (event.change == Down || event.change == Removed)
  }

  /** One event. order is the walk of the ledger that a Down or Removed event makes. */
  function HandleEvent(s: EngineState, event: NetworkEvent, order: seq<string>): EngineState {
    if s.phase != Running then s
    else
      var s1 := s.(interfaces := ApplyEvent(s.interfaces, event));
      match event
      case InterfaceChanged(interface, change) =>
        if TakesDown(event) then HandleDown(s1, order)
        else if change == Up && interface in s1.interfaces && interface !in s1.ssids then
          ApplyDefaultRules(s1, interface)
        else s1
      case WifiConnected(interface, ssid) =>
        ApplyForInterface(s1.(ssids := s1.ssids[interface := ssid]), interface, Some(ssid))
      case WifiDisconnected(interface, _) =>
        ApplyDefaultRules(s1.(ssids := s1.ssids - {interface}), interface)
      case AddressChanged(interface, _, _) =>
        ApplyForInterface(s1, interface, if interface in s1.ssids then Some(s1.ssids[interface]) else None)
      case RouteChanged(_) => s1
  }

  ghost predicate ValidOrder(s: EngineState, event: NetworkEvent, order: seq<string>) {
    s.phase == Running && TakesDown(event) ==> ListsVictims(s.exec.ledger, event.interface, order)
  }

  function UpdateConfig(s: EngineState, config: Config): EngineState {
    s.(indices := UpdateIndices(s.indices, config.interfaces), config := config)
  }

  function Populate(links: Interfaces, infos: seq<InterfaceInfo>): Interfaces
    decreases |infos|
  {
    if infos == [] then links else Populate(links[infos[0].name := infos[0]], infos[1..])
  }

  /** Default rules once for every interface that is up and configured, in list order. */
  function ApplyInitial(s: EngineState, infos: seq<InterfaceInfo>): EngineState
    decreases |infos|
  {
    if infos == [] then s
    else
      var first := infos[0];
      ApplyInitial(if first.isUp && first.name in s.config.interfaces then ApplyDefaultRules(s, first.name) else s,
                   infos[1..])
  }

  const MAX_INTERFACES: nat := 32

  /** The tables the startup cleanup flushes. */
  predicate Cleaned(base: nat, table: nat) {
    base <= table < base + MAX_INTERFACES || IPV6_TABLE_START <= table < IPV6_TABLE_START + MAX_INTERFACES
  }

  /** Nothing is lost outside the cleaned tables, and no IPv6 route anywhere. */
  ghost predicate LosesOnlyCleaned(k: KernelState, k': KernelState, base: nat) {
    && OnlyLoses(k, k')
    && (forall e :: e in k.rules && e !in k'.rules ==> Cleaned(base, e.table))
    && (forall e :: e in k.routes && e !in k'.routes ==> Cleaned(base, e.table) && e.dst.family == V4)
  }

  /** No policy rule and no IPv4 route is left in a cleaned table. */
  ghost predicate CleanedOut(k: KernelState, base: nat) {
    && (forall e :: e in k.rules ==> !Cleaned(base, e.table))
    && (forall e :: e in k.routes && e.dst.family == V4 ==> !Cleaned(base, e.table))
  }

  const FLUSHES: nat := 2 * MAX_INTERFACES

  /** No policy rule and no IPv4 route is left in this table. */
  ghost predicate TableClean(k: KernelState, table: nat) {
    && (forall e :: e in k.rules ==> e.table != table)
    && (forall e :: e in k.routes && e.dst.family == V4 ==> e.table != table)
  }

  /** at cuts the requests made between the two kernels into one window per flush. */
  ghost predicate Windows(first: KernelState, k: KernelState, at: seq<nat>) {
    && at != [] && at[0] == first.calls && at[|at| - 1] == k.calls
    && forall i :: 0 <= i < |at| - 1 ==> at[i] <= at[i + 1]
  }

  /** A table whose own requests all went through is clean, whatever happened to the others. */
  ghost predicate CleanWhereQuiet(first: KernelState, k: KernelState, base: nat, at: seq<nat>) {
    forall i :: 0 <= i < |at| - 1 && QuietBetween(first, at[i], at[i + 1]) && FlushedTable(base, i) <= MAX_TABLE_ID ==>
      TableClean(k, FlushedTable(base, i))
  }

  /** What a cleanup leaves of the kernel k, whatever fails in it: every table whose own
      requests all went through is clean, and if all requests did, every table is. */
  ghost predicate CleanupDone(k: KernelState, k': KernelState, router: RouterState) {
    && LosesOnlyCleaned(k, k', router.base)
    && (router.dryRun ==> k' == k)
    && (!router.dryRun ==>
          exists at :: |at| == FLUSHES + 1 && Windows(k, k', at) && CleanWhereQuiet(k, k', router.base, at))
    && (QuietBetween(k, k.calls, k'.calls) && router.CanFlush() ==> CleanedOut(k', router.base))
  }

  class EventDispatcher {
    var config: Config
    const networkState: NetworkState
    const executor: RuleExecutor
    var currentSsids: map<string, string>
    var interfaceIndices: IndexMap<string>
    var phase: Phase

    function View(): EngineState
      reads this, networkState, executor, executor.manager
    {
      EngineState(config, networkState.interfaces, executor.View(), currentSsids, interfaceIndices, phase)
    }

    constructor (config: Config, manager: RouteManager)
      ensures fresh(networkState) && fresh(executor) && executor.manager == manager
      ensures View() == EngineState(config, map[], ExecState(manager.View(), map[]), map[],
                                    NewIndices(config.interfaces), Initializing)
    {
      this.config := config;
      var links := new NetworkState();
      networkState := links;
      var exec := new RuleExecutor(manager);
      executor := exec;
      currentSsids, phase := map[], Initializing;
      new;
      interfaceIndices := BuildNewIndices(config.interfaces);
    }

    method Start()
      modifies this`phase
      ensures View() == old(View()).(phase := Running)
    {
      if phase != Running {
        phase := Running;
      }
    }

    /** Stopping forgets the active routes and leaves the kernel as it is. */
    method Stop()
      modifies this`phase, executor`activeRoutes
      ensures View() == old(View()).(phase := Stopped, exec := old(View()).exec.(ledger := map[]))
    {
      phase := Stopping;
      executor.ClearActiveRoutes();
      phase := Stopped;
    }

    method Update(config: Config)
      modifies this`config, this`interfaceIndices
      ensures View() == UpdateConfig(old(View()), config)
    {
      interfaceIndices := RebuildIndices(interfaceIndices, config.interfaces);
      this.config := config;
    }

    /** Another route manager, and so another base and kernel, under the same ledger. */
    method SetRouteManager(manager: RouteManager)
      modifies executor`manager
      ensures executor.manager == manager
      ensures View() == old(View()).(exec := ExecState(manager.View(), old(View()).exec.ledger))
    {
      executor.SetRouteManager(manager);
    }

    method GetTableId(interface: string) returns (table: nat)
      modifies this`interfaceIndices
      ensures (View(), table) == TableFor(old(View()), interface)
    {
      var (indices, index) := AssignIndex(interfaceIndices, interface);
      interfaceIndices := indices;
      table := TableIdV4(executor.manager.base, index);
    }

    method ApplyDefault(interface: string)
      modifies this`interfaceIndices, executor`activeRoutes, executor.manager`kernel
      ensures View() == ApplyDefaultRules(old(View()), interface)
    {
      var rules := config.defaultRules;
      if rules == [] { return; }
      var table := GetTableId(interface);
      ghost var start := executor.View();
      for n := 0 to |rules|
        invariant executor.manager == old(executor.manager)
        invariant View() == old(View()).(indices := interfaceIndices, exec := executor.View())
        invariant interfaceIndices == TableFor(old(View()), interface).0.indices
        invariant ApplyDefaults(start, rules, table) == ApplyDefaults(executor.View(), rules[n..], table)
      {
        if rules[n].name !in executor.activeRoutes {
          var _ := executor.ApplyOne(rules[n], table);
        }
      }
    }

    method ApplyFor(interface: string, ssid: Option<string>)
      modifies this`interfaceIndices, executor`activeRoutes, executor.manager`kernel
      ensures View() == ApplyForInterface(old(View()), interface, ssid)
    {
      if ssid.Some? {
        var profile := ProfileFor(config.wifiProfiles, ssid.value);
        if profile.Some? {
          var table := GetTableId(interface);
          var _ := executor.ApplyWifiProfile(profile.value, table);
          return;
        }
      }
      ApplyDefault(interface);
    }

    method LoadRules() returns (byName: map<string, RouteRule>)
      ensures byName == RulesMap(AllRules(config))
    {
      byName := InsertRules(map[], [], config.defaultRules);
      ghost var seen := [] + config.defaultRules;
      for p := 0 to |config.wifiProfiles|
        invariant byName == RulesMap(seen)
        invariant AllRules(config) == seen + ProfileRules(config.wifiProfiles[p..])
      {
        ghost var more, rest := config.wifiProfiles[p].1.rules, ProfileRules(config.wifiProfiles[p + 1..]);
        assert config.wifiProfiles[p..][1..] == config.wifiProfiles[p + 1..];
        assert seen + (more + rest) == seen + more + rest;
        byName := InsertRules(byName, seen, config.wifiProfiles[p].1.rules);
        seen := seen + more;
      }
      assert seen + [] == seen;
    }

    method InterfaceDown(interface: string) returns (ghost order: seq<string>)
      modifies executor`activeRoutes, executor.manager`kernel
      ensures ListsVictims(old(executor.activeRoutes), interface, order)
      ensures View() == HandleDown(old(View()), order)
    {
      var tables := executor.activeRoutes;
      var toRemove := Victims(tables, interface);
      order := toRemove;
      if toRemove == [] { return; }
      var byName := LoadRules();
      for n := 0 to |toRemove|
        invariant executor.manager == old(executor.manager)
        invariant View() == old(View()).(exec := executor.View())
        invariant RemoveAll(old(executor.View()), byName, tables, toRemove) ==
                  RemoveAll(executor.View(), byName, tables, toRemove[n..])
      {
        var name := toRemove[n];
        if name in byName {
          var _ := executor.RemoveOne(byName[name], tables[name].table);
        }
      }
    }

    method Handle(event: NetworkEvent) returns (ghost order: seq<string>)
      modifies this`currentSsids, this`interfaceIndices, networkState, executor`activeRoutes, executor.manager`kernel
      ensures ValidOrder(old(View()), event, order)
      ensures View() == HandleEvent(old(View()), event, order)
    {
      order := [];
      if phase != Running { return; }
      networkState.Apply(event);
      match event
      case InterfaceChanged(interface, change) =>
        if change == Down || change == Removed {
          order := InterfaceDown(interface);
        } else if change == Up {
          var known := interface in networkState.interfaces && networkState.interfaces[interface].isUp;
          if known && interface !in currentSsids {
            ApplyDefault(interface);
          }
        }
      case WifiConnected(interface, ssid) =>
        currentSsids := currentSsids[interface := ssid];
        ApplyFor(interface, Some(ssid));
      case WifiDisconnected(interface, _) =>
        currentSsids := currentSsids - {interface};
        ApplyDefault(interface);
      case AddressChanged(interface, _, _) =>
        ApplyFor(interface, if interface in currentSsids then Some(currentSsids[interface]) else None);
      case RouteChanged(_) =>
    }

    /** Flushes both table ranges of earlier runs; a failing table is logged and skipped, and
        the others are flushed all the same. total is the count that is logged. */
    method CleanupStaleTables() returns (total: nat)
      modifies executor.manager`kernel
      ensures CleanupDone(old(executor.manager.kernel), executor.manager.kernel, old(View()).exec.router)
      ensures total <= Size(old(executor.manager.kernel)) - Size(executor.manager.kernel)
      ensures var k := old(executor.manager.kernel);
              QuietBetween(k, k.calls, executor.manager.kernel.calls) && old(View()).exec.router.CanFlush() ==>
                total == Size(k) - Size(executor.manager.kernel)
    {
      var rm := executor.manager;
      total := 0;
      ghost var first := rm.kernel;
      ghost var at := [first.calls];
      for idx := 0 to MAX_INTERFACES
        invariant executor.manager == rm && |at| == 2 * idx + 1
        invariant Progress(first, rm.kernel, rm.base, rm.dryRun, at, total)
      {
        total := FlushAndCount(rm, TableIdV4(rm.base, 0) + idx, first, at, total);
        at := at + [rm.kernel.calls];
        total := FlushAndCount(rm, IPV6_TABLE_START + idx, first, at, total);
        at := at + [rm.kernel.calls];
      }
      CleanupFinished(first, rm.View(), at, total);
    }

    /** Startup: cache the links, clean the stale tables, then apply the default rules. */
    method ApplyInitialState(infos: seq<InterfaceInfo>) returns (ghost cleaned: KernelState)
      modifies this`interfaceIndices, networkState, executor`activeRoutes, executor.manager`kernel
      ensures CleanupDone(old(executor.manager.kernel), cleaned, old(View()).exec.router)
      ensures var s := old(View());
              View() == ApplyInitial(
                s.(interfaces := Populate(s.interfaces, infos),
                   exec := s.exec.(router := s.exec.router.(kernel := cleaned))), infos)
    {
      for n := 0 to |infos|
        invariant Populate(old(networkState.interfaces), infos) == Populate(networkState.interfaces, infos[n..])
        invariant View() == old(View()).(interfaces := networkState.interfaces)
      {
        networkState.UpdateInterface(infos[n]);
      }
      var _ := CleanupStaleTables();
      cleaned := executor.manager.kernel;
      ghost var s := View();
      for n := 0 to |infos|
        invariant executor.manager == old(executor.manager)
        invariant ApplyInitial(s, infos) == ApplyInitial(View(), infos[n..])
      {
        if infos[n].isUp && infos[n].name in config.interfaces {
          ApplyDefault(infos[n].name);
        }
      }
    }
  }

  lemma RulesMapAppend(rules: seq<RouteRule>, rule: RouteRule)
    ensures RulesMap(rules + [rule]) == RulesMap(rules)[rule.name := rule]
  {
    assert (rules + [rule])[..|rules|] == rules;
  }

  method InsertRules(byName: map<string, RouteRule>, ghost seen: seq<RouteRule>, more: seq<RouteRule>)
    returns (all: map<string, RouteRule>)
    requires byName == RulesMap(seen)
    ensures all == RulesMap(seen + more)
  {
    all := byName;
    assert seen + more[..0] == seen;
    for n := 0 to |more|
      invariant all == RulesMap(seen + more[..n])
    {
      RulesMapAppend(seen + more[..n], more[n]);
      assert seen + more[..n + 1] == seen + more[..n] + [more[n]];
      all := all[more[n].name := more[n]];
    }
    assert more[..|more|] == more;
  }

  /** The walk of a hash map: the tracked rules via the interface, in some order. */
  method Victims(ledger: Ledger, interface: string) returns (order: seq<string>)
    ensures ListsVictims(ledger, interface, order)
  {
    order := [];
    var left := ledger.Keys;
    while left != {}
      invariant left <= ledger.Keys
      invariant forall n :: n in order <==> n in ledger && n !in left && ledger[n].interface == interface
      invariant forall i, j :: 0 <= i < j < |order| ==> order[i] != order[j]
      decreases |left|
    {
      var n :| n in left;
      left := left - {n};
      if ledger[n].interface == interface {
        order := order + [n];
      }
    }
  }

  /** The table of the i-th flush: the two ranges in turn. */
  function FlushedTable(base: nat, i: nat): nat {
    (if i % 2 == 0 then base else IPV6_TABLE_START) + i / 2
  }

  method FlushAndCount(rm: RouteManager, table: nat, ghost first: KernelState, ghost at: seq<nat>, total: nat)
    returns (more: nat)
    requires Progress(first, rm.kernel, rm.base, rm.dryRun, at, total)
    requires |at| <= FLUSHES && table == FlushedTable(rm.base, |at| - 1)
    modifies rm`kernel
    ensures Progress(first, rm.kernel, rm.base, rm.dryRun, at + [rm.kernel.calls], more)
  {
    ghost var before := rm.kernel;
    var count := rm.FlushTableComplete(table);
    LosingShrinks(before, rm.kernel);
    more := total + if count.Ok? then count.value else 0;
    FlushProgresses(first, before, rm.View(), at, total, more);
  }

  lemma QuietSplits(first: KernelState, k: KernelState, k': KernelState)
    requires first.calls <= k.calls <= k'.calls && k.fault == first.fault
    requires QuietBetween(first, first.calls, k'.calls)
    ensures QuietBetween(first, first.calls, k.calls) && QuietBetween(k, k.calls, k'.calls)
  {
  }

  lemma FlushedTablesAreLow(base: nat, n: nat)
    requires base <= IPV4_TABLE_END && n < FLUSHES
    ensures FlushedTable(base, n) <= MAX_TABLE_ID
  {
  }

  /** The count is complete as long as nothing is refused. */
  lemma FlushCounts(first: KernelState, before: KernelState, r: RouterState, n: nat, total: nat, more: nat)
    requires first.calls <= before.calls <= r.kernel.calls && before.fault == first.fault && n < FLUSHES
    requires QuietBetween(first, first.calls, before.calls) && !r.dryRun && r.base <= IPV4_TABLE_END ==>
               total == Size(first) - Size(before)
    requires QuietBetween(before, before.calls, r.kernel.calls) && FlushedTable(r.base, n) <= MAX_TABLE_ID
             && !r.dryRun ==>
               more == total + Size(before) - Size(r.kernel)
    ensures QuietBetween(first, first.calls, r.kernel.calls) && !r.dryRun && r.base <= IPV4_TABLE_END ==>
              more == Size(first) - Size(r.kernel)
  {
    if QuietBetween(first, first.calls, r.kernel.calls) && !r.dryRun && r.base <= IPV4_TABLE_END {
      QuietSplits(first, before, r.kernel);
      FlushedTablesAreLow(r.base, n);
    }
  }

  lemma WindowsGrow(first: KernelState, k: KernelState, k': KernelState, at: seq<nat>)
    requires Windows(first, k, at) && k.calls <= k'.calls
    ensures Windows(first, k', at + [k'.calls])
  {
  }

  /** What one flush does to the kernel, and the count that goes with it. */
  ghost predicate FlushedOnce(before: KernelState, r: RouterState, table: nat, total: nat, more: nat) {
    && OnlyLoses(before, r.kernel)
    && (forall e :: e in before.rules && e !in r.kernel.rules ==> e.table == table)
    && (forall e :: e in before.routes && e !in r.kernel.routes ==> e.table == table && e.dst.family == V4)
    && (QuietBetween(before, before.calls, r.kernel.calls) && table <= MAX_TABLE_ID && !r.dryRun ==>
          && r.kernel.rules == FlushedRules(before.rules, table)
          && r.kernel.routes == FlushedRoutes(before.routes, table)
          && more == total + Size(before) - Size(r.kernel))
    && total <= more <= total + Size(before) - Size(r.kernel)
    && (r.dryRun ==> r.kernel == before && more == total)
  }

  /** One flush carries on what is lost and what is clean, */
  lemma FlushCarriesOn(first: KernelState, before: KernelState, r: RouterState, at: seq<nat>, total: nat, more: nat)
    requires Windows(first, before, at) && LosesOnlyFlushed(first, before, r.base, |at| - 1)
    requires FlushedOnce(before, r, FlushedTable(r.base, |at| - 1), total, more)
    requires !r.dryRun ==> CleanWhereQuiet(first, before, r.base, at)
    ensures Windows(first, r.kernel, at + [r.kernel.calls]) && LosesOnlyFlushed(first, r.kernel, r.base, |at|)
    ensures !r.dryRun ==> CleanWhereQuiet(first, r.kernel, r.base, at + [r.kernel.calls])
  {
    WindowsGrow(first, before, r.kernel, at);
    FlushStepLoses(first, before, r.kernel, r.base, |at| - 1, FlushedTable(r.base, |at| - 1));
    if !r.dryRun {
      FlushStepCleans(first, before, r.kernel, r.base, at, FlushedTable(r.base, |at| - 1));
    }
  }

  /** and with it the progress. */
  lemma FlushProgresses(first: KernelState, before: KernelState, r: RouterState, at: seq<nat>, total: nat, more: nat)
    requires Progress(first, before, r.base, r.dryRun, at, total) && |at| <= FLUSHES
    requires FlushedOnce(before, r, FlushedTable(r.base, |at| - 1), total, more)
    ensures Progress(first, r.kernel, r.base, r.dryRun, at + [r.kernel.calls], more)
  {
    var at' := at + [r.kernel.calls];
    FlushCarriesOn(first, before, r, at, total, more);
    FlushCounts(first, before, r, |at| - 1, total, more);
    assert |at'| - 1 == |at|;
  }

  /** Tables among the first n flushed. */
  predicate FlushedSoFar(base: nat, n: nat, table: nat) {
    base <= table < base + (n + 1) / 2 || IPV6_TABLE_START <= table < IPV6_TABLE_START + n / 2
  }

  /** What the cleanup loop keeps: only flushed tables lose entries, */
  ghost predicate LosesOnlyFlushed(first: KernelState, k: KernelState, base: nat, n: nat) {
    && OnlyLoses(first, k)
    && (forall e :: e in first.rules && e !in k.rules ==> FlushedSoFar(base, n, e.table))
    && (forall e :: e in first.routes && e !in k.routes ==> FlushedSoFar(base, n, e.table) && e.dst.family == V4)
  }

  lemma FlushStepLoses(first: KernelState, k: KernelState, k': KernelState, base: nat, n: nat, table: nat)
    requires LosesOnlyFlushed(first, k, base, n) && OnlyLoses(k, k') && table == FlushedTable(base, n)
    requires forall e :: e in k.rules && e !in k'.rules ==> e.table == table
    requires forall e :: e in k.routes && e !in k'.routes ==> e.table == table && e.dst.family == V4
    ensures LosesOnlyFlushed(first, k', base, n + 1)
  {
  }

  lemma FlushStepCleans(first: KernelState, k: KernelState, k': KernelState, base: nat, at: seq<nat>, table: nat)
    requires at != [] && CleanWhereQuiet(first, k, base, at) && OnlyLoses(k, k') && k.fault == first.fault
    requires at[|at| - 1] == k.calls && table == FlushedTable(base, |at| - 1)
    requires QuietBetween(k, k.calls, k'.calls) && table <= MAX_TABLE_ID ==>
               k'.rules == FlushedRules(k.rules, table) && k'.routes == FlushedRoutes(k.routes, table)
    ensures CleanWhereQuiet(first, k', base, at + [k'.calls])
  {
    var more := at + [k'.calls];
    forall i | 0 <= i < |more| - 1 && QuietBetween(first, more[i], more[i + 1]) && FlushedTable(base, i) <= MAX_TABLE_ID
      ensures TableClean(k', FlushedTable(base, i))
    {
      if i < |at| - 1 {
        assert more[i] == at[i] && more[i + 1] == at[i + 1];
        assert TableClean(k, FlushedTable(base, i));
      } else {
        assert QuietBetween(k, k.calls, k'.calls);
      }
    }
  }

  /** and those whose requests were not refused lose all that a flush lists. */
  ghost predicate Progress(first: KernelState, k: KernelState, base: nat, dryRun: bool, at: seq<nat>, total: nat) {
    && Windows(first, k, at)
    && LosesOnlyFlushed(first, k, base, |at| - 1)
    && total <= Size(first) - Size(k)
    && (dryRun ==> k == first && total == 0)
    && (!dryRun ==> CleanWhereQuiet(first, k, base, at))
    && (QuietBetween(first, first.calls, k.calls) && !dryRun && base <= IPV4_TABLE_END ==>
          total == Size(first) - Size(k))
  }

  lemma {:induction false} WindowsBetween(at: seq<nat>, i: nat)
    requires i < |at| && forall j :: 0 <= j < |at| - 1 ==> at[j] <= at[j + 1]
    ensures at[0] <= at[i] <= at[|at| - 1] && (i + 1 < |at| ==> at[i + 1] <= at[|at| - 1])
    decreases |at|
  {
    if |at| > 1 {
      var rest := at[..|at| - 1];
      WindowsBetween(rest, if i < |rest| then i else |rest| - 1);
    }
  }

  lemma AllFlushedIsCleaned(first: KernelState, k: KernelState, base: nat, at: seq<nat>)
    requires CleanWhereQuiet(first, k, base, at) && Windows(first, k, at) && |at| == FLUSHES + 1
    requires QuietBetween(first, first.calls, k.calls) && base <= IPV4_TABLE_END
    ensures CleanedOut(k, base)
  {
    forall table: nat | Cleaned(base, table) ensures TableClean(k, table) {
      var i := if base <= table < base + MAX_INTERFACES then 2 * (table - base) else 2 * (table - IPV6_TABLE_START) + 1;
      assert at[0] <= at[i] && at[i + 1] <= at[|at| - 1] by { WindowsBetween(at, i); }
      assert FlushedTable(base, i) == table && QuietBetween(first, at[i], at[i + 1]);
    }
  }

  lemma CleanupFinished(first: KernelState, router: RouterState, at: seq<nat>, total: nat)
    requires |at| == FLUSHES + 1 && Progress(first, router.kernel, router.base, router.dryRun, at, total)
    ensures CleanupDone(first, router.kernel, router)
    ensures total <= Size(first) - Size(router.kernel)
    ensures QuietBetween(first, first.calls, router.kernel.calls) && router.CanFlush() ==>
              total == Size(first) - Size(router.kernel)
  {
    if QuietBetween(first, first.calls, router.kernel.calls) && router.CanFlush() {
      AllFlushedIsCleaned(first, router.kernel, router.base, at);
    }
  }
}
