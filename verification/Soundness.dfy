/** What is tracked is installed, whatever the kernel refuses
    (src/router/rules.rs, src/engine/executor.rs, src/engine/dispatcher.rs). */
module Soundness {
  import opened Config
  import opened Kernel
  import opened Executor
  import opened State
  import opened Dispatcher
  import opened LedgerInvariants
  import opened RuleNames
  import opened Extending
  import opened Draining
  import opened Runs
  import opened LedgerRuns
  import opened Sets

  // ---------------------------------------------------------------------------------------
  // One removal
  // ---------------------------------------------------------------------------------------

  /** The lowest route to the entry's destination in its table is another tracked rule's. */
  ghost predicate OtherIsLowest(byName: ByName, x: ExecState, n: string)
    requires Tracked(byName, x.ledger) && n in x.ledger
  {
    var e := EntryOf(byName, x.ledger, n);
    exists low :: low in Determined(byName, x.ledger - {n}) && IsLowest(x.router.kernel.routes, e.dst, e.table, low)
  }

  /** One removal, whatever the kernel grants, leaves every tracked rule installed precisely
      when it does not stop half way, and fails or takes neither the entry nor the route of
      another tracked rule. */
  lemma RemoveKeepsInstalled(byName: ByName, x: ExecState, n: string)
    requires KeyedByName(byName) && AllInstalled(byName, x) && n in x.ledger && !x.router.dryRun
    ensures var (y, r) := Remove(x, byName[n], x.ledger[n].table);
            AllInstalled(byName, y) <==>
              && !StopsHalfWay(x.router.kernel, x.ledger[n].table)
              && (r.Err? || (!SharesEntry(byName, x.ledger, n) && !OtherIsLowest(byName, x, n)))
  {
    var e := EntryOf(byName, x.ledger, n);
    assert e in Determined(byName, x.ledger) && e in x.router.kernel.routes;
    RemoveOutcome(x, byName[n], e.table);
    var (y, r) := Remove(x, byName[n], e.table);
    if r.Ok? {
      UninstalledKeepsInstalled(byName, x, y, n);
    }
  }

  lemma UninstalledKeepsInstalled(byName: ByName, x: ExecState, y: ExecState, n: string)
    requires AllInstalled(byName, x) && n in x.ledger
    requires Uninstalled(x, y, n, EntryOf(byName, x.ledger, n))
    ensures AllInstalled(byName, y) <==> !SharesEntry(byName, x.ledger, n) && !OtherIsLowest(byName, x, n)
  {
    var e := EntryOf(byName, x.ledger, n);
    var low := LowestRoute(x.router.kernel.routes, e.dst, e.table);
    DeterminedUntrack(byName, x.ledger, n);
    SharedIsDetermined(byName, x.ledger, n);
    assert forall f :: IsLowest(x.router.kernel.routes, e.dst, e.table, f) && f in Determined(byName, x.ledger) ==>
                         f.rank == low.rank && f == low;
    assert OtherIsLowest(byName, x, n) <==> low in Determined(byName, y.ledger);
  }

  lemma SharedIsDetermined(byName: ByName, ledger: Ledger, n: string)
    requires Tracked(byName, ledger) && n in ledger
    ensures Tracked(byName, ledger - {n})
    ensures SharesEntry(byName, ledger, n) <==> EntryOf(byName, ledger, n) in Determined(byName, ledger - {n})
  {
    if SharesEntry(byName, ledger, n) {
      var m :| m in ledger && m != n && EntryOf(byName, ledger, m) == EntryOf(byName, ledger, n);
      assert m in ledger - {n} && EntryOf(byName, ledger - {n}, m) == EntryOf(byName, ledger, n);
    }
    if EntryOf(byName, ledger, n) in Determined(byName, ledger - {n}) {
      var m :| m in ledger - {n} && EntryOf(byName, ledger - {n}, m) == EntryOf(byName, ledger, n);
      assert EntryOf(byName, ledger, m) == EntryOf(byName, ledger, n);
    }
  }

  // ---------------------------------------------------------------------------------------
  // Events
  // ---------------------------------------------------------------------------------------

  /** Every tracked rule has its policy rule and its route, and shares them with no other. */
  ghost predicate SoundState(s: EngineState) {
    && Workable(s) && AllInstalled(Named(s.config), s.exec)
    && OneEach(Named(s.config), s.exec.ledger)
  }

  lemma ExtendedIsInstalled(byName: ByName, x: ExecState, y: ExecState)
    requires Extended(byName, x, y)
    ensures AllInstalled(byName, y)
  {
  }

  /** What a removal event must do to stay sound: stop half way through no removal, and leave
      room below every rule still tracked. */
  ghost predicate DownRoomy(s: EngineState, t: EngineState, order: seq<string>) {
    && RemovesWhole(s.exec, Named(s.config), s.exec.ledger, order)
    && LeavesRoom(Named(s.config), s.exec, t.exec)
  }

  lemma DownKeepsSound(s: EngineState, interface: string, order: seq<string>)
    requires SoundState(s) && ListsVictims(s.exec.ledger, interface, order)
    ensures SoundState(HandleDown(s, order)) <==> DownRoomy(s, HandleDown(s, order), order)
  {
    var t := HandleDown(s, order);
    DownDrains(s, interface, order);
    FewerStillOneEach(Named(s.config), s.exec, t.exec);
    DrainingKeepsInstalled(Named(s.config), s.exec, t.exec);
  }

  /** What an event must do to stay sound: a removal as above, and an application must give each
      tracked rule an entry of its own. */
  ghost predicate EventRoomy(s: EngineState, event: NetworkEvent, order: seq<string>) {
    s.phase == Running ==>
      var t := HandleEvent(s, event, order);
      && Tracked(Named(s.config), t.exec.ledger)
      && if TakesDown(event) then DownRoomy(s, t, order) else OneEach(Named(s.config), t.exec.ledger)
  }

  lemma AskingKeepsSound(s: EngineState, event: NetworkEvent, order: seq<string>)
    requires s.phase == Running && SoundState(s) && AsksForRules(s, event)
    ensures SoundState(HandleEvent(s, event, order)) <==> EventRoomy(s, event, order)
  {
    EventMovesSsids(s, event, order);
    var _, _ := AskingExtends(s, event, order);
    ExtendedIsInstalled(Named(s.config), s.exec, HandleEvent(s, event, order).exec);
  }

  lemma EventKeepsSound(s: EngineState, event: NetworkEvent, order: seq<string>)
    requires SoundState(s) && ValidOrder(s, event, order)
    ensures SoundState(HandleEvent(s, event, order)) <==> EventRoomy(s, event, order)
  {
    if s.phase == Running {
      if TakesDown(event) {
        DownIsOneStep(s, event, order);
        DownDrains(s, event.interface, order);
        DownKeepsSound(s.(interfaces := ApplyEvent(s.interfaces, event)), event.interface, order);
      } else if AsksForRules(s, event) {
        AskingKeepsSound(s, event, order);
      } else {
        OthersAreQuiet(s, event, order);
        EventMovesSsids(s, event, order);
      }
    }
  }

  /** Where deletions succeed the condition is one on the state before: below each rule that
      stays lie at least as many routes to its destination in its table as rules of that group
      go. */
  ghost predicate RoomBelow(byName: ByName, x: ExecState, interface: string)
    requires Tracked(byName, x.ledger)
  {
    forall e :: e in Determined(byName, LedgerWithout(x.ledger, interface)) ==>
      |To(EntriesVia(byName, x.ledger, interface), e.dst, e.table)| <= |Below(x.router.kernel.routes.Keys, e)|
  }

  lemma RoomBelowIsRoom(byName: ByName, x: ExecState, y: ExecState, interface: string)
    requires Tracked(byName, x.ledger) && y.ledger == LedgerWithout(x.ledger, interface)
    ensures LeavesRoom(byName, x, y) <==> RoomBelow(byName, x, interface)
  {
    var d, d' := Determined(byName, x.ledger), Determined(byName, y.ledger);
    forall e | e in d' ensures e in d {
      var n :| n in y.ledger && EntryOf(byName, y.ledger, n) == e;
      assert EntryOf(byName, x.ledger, n) == e;
    }
    forall e | e in d'
      ensures |To(EntriesVia(byName, x.ledger, interface), e.dst, e.table)| ==
              |To(d, e.dst, e.table)| - |To(d', e.dst, e.table)|
    {
      ToDifference(d, d', e.dst, e.table);
    }
  }

  lemma SoundDownByRoomBelow(s: EngineState, event: NetworkEvent, order: seq<string>)
    requires event.InterfaceChanged? && event.change in {Down, Removed}
    requires s.phase == Running && ValidOrder(s, event, order) && SoundState(s)
    requires DeletionsSucceed(s.exec.router.kernel)
    ensures SoundState(HandleEvent(s, event, order)) <==> RoomBelow(Named(s.config), s.exec, event.interface)
  {
    var t := HandleEvent(s, event, order);
    EventKeepsSound(s, event, order);
    DownIsOneStep(s, event, order);
    DownDrains(s, event.interface, order);
    DeletionsThatSucceedAreWhole(s.exec, Named(s.config), s.exec.ledger, order);
    VictimsAreGone(s.exec, t.exec, event.interface, order);
    RoomBelowIsRoom(Named(s.config), s.exec, t.exec, event.interface);
  }

  // ---------------------------------------------------------------------------------------
  // Whole runs
  // ---------------------------------------------------------------------------------------

  /** Under the new configuration every tracked name has a rule for the interface it is tracked
      for, whose entries are in the kernel already and are no other's. */
  ghost predicate ReloadRoomy(config: Config, x: ExecState) {
    AllInstalled(Named(config), x) && OneEach(Named(config), x.ledger)
  }

  ghost predicate StepRoomy(s: EngineState, op: Op) {
    match op
    case Event(event, order) => EventRoomy(s, event, order)
    case Reload(config) => ReloadRoomy(config, s.exec)
    case _ => true
  }

  ghost predicate AlwaysRoomy(s: EngineState, ops: seq<Op>)
    decreases |ops|
  {
    ops == [] || (StepRoomy(s, ops[0]) && AlwaysRoomy(StepOf(s, ops[0]), ops[1..]))
  }

  ghost predicate AlwaysSound(s: EngineState, ops: seq<Op>)
    decreases |ops|
  {
    SoundState(s) && (ops == [] || AlwaysSound(StepOf(s, ops[0]), ops[1..]))
  }

  lemma StepKeepsSound(s: EngineState, op: Op)
    requires SoundState(s) && RealWalk(s, op) && (op.Reload? ==> DistinctConfig(op.config))
    ensures SoundState(StepOf(s, op)) <==> StepRoomy(s, op)
  {
    match op
    case Event(event, order) =>
      EventKeepsSound(s, event, order);
    case Reload(config) =>
    case Start =>
    case Stop =>
      assert Determined(Named(s.config), map[]) == {};
  }

  /** Soundness, exactly: over every run of events, reloads, starts and stops, whatever requests
      the kernel refuses, wherever SSIDs are joined and whatever rules share, every tracked rule
      has a policy rule and a route of its own after each step if and only if each step leaves
      room. */
  lemma {:induction false} SoundIffRoomy(s: EngineState, ops: seq<Op>)
    requires SoundState(s) && RealRun(s, ops)
    ensures AlwaysSound(s, ops) <==> AlwaysRoomy(s, ops)
    decreases |ops|
  {
    if ops != [] {
      StepKeepsSound(s, ops[0]);
      if SoundState(StepOf(s, ops[0])) {
        SoundIffRoomy(StepOf(s, ops[0]), ops[1..]);
      }
    }
  }

  /** A new engine's startup installs what it tracks, whatever it finds in the kernel. */
  lemma StartupIsInstalled(s: EngineState, infos: seq<InterfaceInfo>)
    requires Workable(s) && s.exec.ledger == map[]
    ensures Workable(ApplyInitial(s, infos)) && AllInstalled(Named(s.config), ApplyInitial(s, infos).exec)
    ensures ApplyInitial(s, infos).config == s.config
  {
    assert Determined(Named(s.config), s.exec.ledger) == {};
    ExtendedByNothing(Named(s.config), s.exec);
    StartupExtends(s.exec, s, infos);
    ExtendedIsInstalled(Named(s.config), s.exec, ApplyInitial(s, infos).exec);
  }

  /** From a new engine, over whatever it finds in the kernel, through startup and every run. */
  lemma SoundFromStartup(s: EngineState, infos: seq<InterfaceInfo>, ops: seq<Op>)
    requires Workable(s) && s.exec.ledger == map[] && RealRun(ApplyInitial(s, infos), ops)
    ensures var t := ApplyInitial(s, infos);
            && Tracked(Named(s.config), t.exec.ledger)
            && (AlwaysSound(t, ops) <==> OneEach(Named(s.config), t.exec.ledger) && AlwaysRoomy(t, ops))
  {
    StartupIsInstalled(s, infos);
    if SoundState(ApplyInitial(s, infos)) {
      SoundIffRoomy(ApplyInitial(s, infos), ops);
    }
  }

  // ---------------------------------------------------------------------------------------
  // When there is always room
  // ---------------------------------------------------------------------------------------

  lemma GoneLiesBelow(d: set<Entry>, d': set<Entry>, routes: set<Entry>, e: Entry)
    requires d' <= d <= routes && GoesFromBelow(d - d', routes) && e in d'
    ensures To(d - d', e.dst, e.table) <= Below(routes, e)
  {
  }

  /** Removing from below leaves room. */
  lemma FromBelowLeavesRoom(byName: ByName, x: ExecState, y: ExecState)
    requires AllInstalled(byName, x) && Drained(byName, x, y) && FromBelow(byName, x, y)
    ensures LeavesRoom(byName, x, y)
  {
    var d, d' := Determined(byName, x.ledger), Determined(byName, y.ledger);
    forall e | e in d'
      ensures |To(d, e.dst, e.table)| - |To(d', e.dst, e.table)| <= |Below(x.router.kernel.routes.Keys, e)|
    {
      ToDifference(d, d', e.dst, e.table);
      GoneLiesBelow(d, d', x.router.kernel.routes.Keys, e);
      SubsetSize(To(d - d', e.dst, e.table), Below(x.router.kernel.routes.Keys, e));
    }
  }

  /** So does any removal when no two rules share a destination. */
  lemma OneRulePerDestinationLeavesRoom(config: Config, x: ExecState, y: ExecState)
    requires DistinctDestinations(AllRules(config))
    requires Tracked(Named(config), x.ledger) && Tracked(Named(config), y.ledger)
    requires Determined(Named(config), y.ledger) <= Determined(Named(config), x.ledger)
    ensures LeavesRoom(Named(config), x, y)
  {
    var d, d' := Determined(Named(config), x.ledger), Determined(Named(config), y.ledger);
    forall e | e in d' ensures To(d, e.dst, e.table) == To(d', e.dst, e.table) {
      forall f | f in To(d, e.dst, e.table) ensures f == e {
        var m :| m in x.ledger && EntryOf(Named(config), x.ledger, m) == e;
        var n :| n in x.ledger && EntryOf(Named(config), x.ledger, n) == f;
        DestinationNamesRule(config, m, n);
      }
      assert To(d, e.dst, e.table) == {e} == To(d', e.dst, e.table);
    }
  }

  /** The reload takes no rule away and changes none. */
  ghost predicate OnlyAddsRules(before: Config, after: Config) {
    DistinctConfig(after) && forall n :: n in Named(before) ==> n in Named(after) && Named(after)[n] == Named(before)[n]
  }

  lemma AddedRulesLeaveRoom(s: EngineState, config: Config)
    requires SoundState(s) && OnlyAddsRules(s.config, config)
    ensures ReloadRoomy(config, s.exec)
  {
    var byName, byName', ledger := Named(s.config), Named(config), s.exec.ledger;
    assert forall n :: n in ledger ==> EntryOf(byName', ledger, n) == EntryOf(byName, ledger, n);
    forall e | e in Determined(byName', ledger) ensures e in Determined(byName, ledger) {
      var n :| n in ledger && EntryOf(byName', ledger, n) == e;
      assert EntryOf(byName, ledger, n) == e;
    }
  }

  /** Every walk of the ledger is a real one, and reloads only add rules. */
  ghost predicate GrowingRun(s: EngineState, ops: seq<Op>)
    decreases |ops|
  {
    ops == [] ||
    (RealWalk(s, ops[0]) && (ops[0].Reload? ==> OnlyAddsRules(s.config, ops[0].config))
     && GrowingRun(StepOf(s, ops[0]), ops[1..]))
  }

  /** No configuration of the run has two rules for one destination. */
  ghost predicate NeverShares(s: EngineState, ops: seq<Op>) {
    && DistinctDestinations(AllRules(s.config))
    && forall op :: op in ops && op.Reload? ==> DistinctDestinations(AllRules(op.config))
  }

  lemma DistinctDestinationsAreRoomy(s: EngineState, event: NetworkEvent, order: seq<string>)
    requires SoundState(s) && ValidOrder(s, event, order) && DistinctDestinations(AllRules(s.config))
    requires NoHalfRemovals(s.exec.router.kernel)
    ensures EventRoomy(s, event, order) && NoHalfRemovals(HandleEvent(s, event, order).exec.router.kernel)
  {
    var byName, t := Named(s.config), HandleEvent(s, event, order);
    if s.phase == Running {
      if TakesDown(event) {
        DownIsOneStep(s, event, order);
        DownDrains(s, event.interface, order);
        DeletionsThatSucceedAreWhole(s.exec, byName, s.exec.ledger, order);
        OneRulePerDestinationLeavesRoom(s.config, s.exec, t.exec);
      } else if AsksForRules(s, event) {
        var _, _ := AskingExtends(s, event, order);
        DestinationsGiveOneEach(s.config, t.exec.ledger);
      } else {
        OthersAreQuiet(s, event, order);
      }
    }
  }

  /** With one rule per destination, and no removal refused half way, the runs in which reloads
      only add rules are always sound. */
  lemma {:induction false} TrackedStaysInstalled(s: EngineState, ops: seq<Op>)
    requires SoundState(s) && GrowingRun(s, ops) && NeverShares(s, ops) && NoHalfRemovals(s.exec.router.kernel)
    ensures AlwaysSound(s, ops)
    decreases |ops|
  {
    if ops != [] {
      assert ops[0] in ops && forall op :: op in ops[1..] ==> op in ops;
      if ops[0].Event? {
        DistinctDestinationsAreRoomy(s, ops[0].event, ops[0].order);
      } else if ops[0].Reload? {
        AddedRulesLeaveRoom(s, ops[0].config);
      }
      StepKeepsSound(s, ops[0]);
      StepTouches(s, ops[0]);
      TrackedStaysInstalled(StepOf(s, ops[0]), ops[1..]);
    }
  }
}
