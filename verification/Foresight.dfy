/** Without faults, what a step keeps can be told from the state before it
    (src/engine/dispatcher.rs, src/engine/executor.rs). */
module Foresight {
  import opened Config
  import opened Kernel
  import opened Rules
  import opened Executor
  import opened State
  import opened Dispatcher
  import opened LedgerInvariants
  import opened RuleNames
  import opened Extending
  import opened Draining
  import opened DefaultRules
  import opened Runs
  import opened LedgerRuns
  import opened Soundness
  import opened Reactions

  // ---------------------------------------------------------------------------------------
  // What an application will track
  // ---------------------------------------------------------------------------------------

  /** The rules that the event will apply: all of the profile's, or the default rules whose names
      are not tracked. */
  ghost function NewRules(s: EngineState, event: NetworkEvent): set<RouteRule>
    requires !event.RouteChanged?
  {
    if ProfileNow(s, event).Some? then InstallableOf(ProfileNow(s, event).value)
    else UntrackedOf(s.config.defaultRules, s.exec.ledger)
  }

  /** Rules the by-name table holds and that have a destination. */
  ghost predicate Placeable(byName: ByName, rules: set<RouteRule>) {
    forall r :: r in rules ==> Registered(byName, r) && HasDestination(r)
  }

  /** Exactly these rules are tracked anew, in this table. */
  ghost predicate TracksRules(ledger: Ledger, ledger': Ledger, rules: set<RouteRule>, table: nat) {
    && ledger.Keys <= ledger'.Keys
    && (forall r :: r in rules ==> r.name in ledger' && ledger'[r.name] == ActiveRoute(r.name, r.via, table))
    && forall n :: n in ledger' ==> (n in ledger && ledger'[n] == ledger[n]) || exists r :: r in rules && r.name == n
  }

  lemma ProfileTracksRules(byName: ByName, x: ExecState, rules: seq<RouteRule>, table: nat)
    requires Faultless(x.router.kernel) && forall r :: r in rules ==> Registered(byName, r)
    ensures TracksRules(x.ledger, ApplyProfile(x, rules, table).ledger, InstallableOf(rules), table)
  {
    ProfileActivates(x, rules, table);
    forall r | r in InstallableOf(rules) ensures InstallableName(rules, r.name) && LastNamed(rules, r.name) == r {
      assert InstallableName(rules, r.name);
    }
    forall n | InstallableName(rules, n) ensures exists r :: r in InstallableOf(rules) && r.name == n {
      var r :| r in rules && r.name == n && Installable(r);
      assert r in InstallableOf(rules);
    }
  }

  lemma DefaultsTrackRules(byName: ByName, x: ExecState, rules: seq<RouteRule>, table: nat)
    requires Faultless(x.router.kernel) && forall r :: r in rules ==> Registered(byName, r)
    ensures TracksRules(x.ledger, ApplyDefaults(x, rules, table).ledger, UntrackedOf(rules, x.ledger), table)
  {
    DefaultsActivate(x, rules, table);
    DefaultsInstallFirst(x, rules, table);
    forall r | r in UntrackedOf(rules, x.ledger)
      ensures InstallableName(rules, r.name) && FirstNamed(rules, r.name) == r
    {
      assert InstallableName(rules, r.name);
    }
    forall n | InstallableName(rules, n) && n !in x.ledger
      ensures exists r :: r in UntrackedOf(rules, x.ledger) && r.name == n
    {
      var r :| r in rules && r.name == n && Installable(r);
      assert r in UntrackedOf(rules, x.ledger);
    }
  }

  lemma AskingTracksRules(s: EngineState, event: NetworkEvent, order: seq<string>)
    requires s.phase == Running && Faultless(s.exec.router.kernel) && AsksForRules(s, event) && DistinctConfig(s.config)
    ensures TracksRules(s.exec.ledger, HandleEvent(s, event, order).exec.ledger, NewRules(s, event),
                        TableFor(s, event.interface).1)
    ensures Placeable(Named(s.config), NewRules(s, event))
  {
    AskingIsOneStep(s, event, order);
    NamedIsDistinct(s.config);
    var byName, table := Named(s.config), TableFor(s, event.interface).1;
    if ProfileNow(s, event).Some? {
      var rules := ProfileNow(s, event).value;
      ProfileRulesIncluded(s.config.wifiProfiles, SsidNow(s, event).value);
      assert forall r :: r in rules ==> r in AllRules(s.config);
      ProfileTracksRules(byName, s.exec, rules, table);
    } else {
      var rules := s.config.defaultRules;
      assert forall r :: r in rules ==> r in AllRules(s.config);
      DefaultsTrackRules(byName, s.exec, rules, table);
    }
  }

  // ---------------------------------------------------------------------------------------
  // The exact ledger
  // ---------------------------------------------------------------------------------------

  /** Each rule's place is free, or its own already, and no two untracked ones take one place. */
  ghost predicate RulesFit(x: ExecState, rules: set<RouteRule>, table: nat) {
    && (forall r :: r in rules ==> PlaceIsFree(x, r, table))
    && forall r, q :: r in rules && q in rules && r.name !in x.ledger && q.name !in x.ledger && SameSlot(r, q) ==>
         r == q
  }

  /** A rule tracked before keeps its entry when it stays put; the others have one of these rules'. */
  lemma OldOrNew(byName: ByName, ledger: Ledger, ledger': Ledger, rules: set<RouteRule>, table: nat, n: string)
    requires Tracked(byName, ledger) && Tracked(byName, ledger') && StaysPut(ledger, ledger')
    requires TracksRules(ledger, ledger', rules, table) && Placeable(byName, rules) && n in ledger'
    ensures n in ledger ==> EntryOf(byName, ledger', n) == EntryOf(byName, ledger, n)
    ensures n !in ledger ==> byName[n] in rules && byName[n].name == n &&
                             EntryOf(byName, ledger', n) == EntryFor(byName[n], table)
  {
    if n !in ledger {
      var r :| r in rules && r.name == n;
      assert byName[n] == r;
    }
  }

  lemma FitIsOneEach(byName: ByName, left: Leftovers, x: ExecState, ledger': Ledger, rules: set<RouteRule>, table: nat)
    requires Exact(byName, left, x) && Tracked(byName, ledger') && StaysPut(x.ledger, ledger')
    requires TracksRules(x.ledger, ledger', rules, table) && Placeable(byName, rules) && RulesFit(x, rules, table)
    ensures OneEach(byName, ledger') && Apart(Determined(byName, ledger'), left)
  {
    forall n | n in ledger' ensures n in x.ledger <==> EntryOf(byName, ledger', n) in Determined(byName, x.ledger) {
      OldOrNew(byName, x.ledger, ledger', rules, table, n);
      assert n in x.ledger ==> EntryOf(byName, x.ledger, n) in Determined(byName, x.ledger);
    }
    forall m, n | m in ledger' && n in ledger' && m != n
      ensures EntryOf(byName, ledger', m) != EntryOf(byName, ledger', n)
    {
      OldOrNew(byName, x.ledger, ledger', rules, table, m);
      OldOrNew(byName, x.ledger, ledger', rules, table, n);
    }
    forall e | e in Determined(byName, ledger') ensures e !in left.rules && e !in left.routes {
      var n :| n in ledger' && EntryOf(byName, ledger', n) == e;
      OldOrNew(byName, x.ledger, ledger', rules, table, n);
    }
  }

  lemma OneEachIsFit(byName: ByName, left: Leftovers, x: ExecState, ledger': Ledger, rules: set<RouteRule>, table: nat)
    requires Exact(byName, left, x) && Tracked(byName, ledger') && StaysPut(x.ledger, ledger')
    requires TracksRules(x.ledger, ledger', rules, table) && Placeable(byName, rules)
    requires OneEach(byName, ledger') && Apart(Determined(byName, ledger'), left)
    ensures RulesFit(x, rules, table)
  {
    forall r | r in rules && r.name !in x.ledger ensures PlaceIsFree(x, r, table) {
      var e := EntryFor(r, table);
      assert EntryOf(byName, ledger', r.name) == e && e in Determined(byName, ledger');
      if e in Determined(byName, x.ledger) {
        var m :| m in x.ledger && EntryOf(byName, x.ledger, m) == e;
        OldOrNew(byName, x.ledger, ledger', rules, table, m);
      }
    }
    forall r, q | r in rules && q in rules && r.name !in x.ledger && q.name !in x.ledger && SameSlot(r, q)
      ensures r == q
    {
      assert EntryOf(byName, ledger', r.name) == EntryOf(byName, ledger', q.name);
    }
  }

  /** Applications without faults keep the ledger exact if and only if their rules fit. */
  lemma ExactIffFit(byName: ByName, left: Leftovers, x: ExecState, y: ExecState, rules: set<RouteRule>,
      list: seq<RouteRule>, table: nat, at: nat)
    requires Exact(byName, left, x) && Extended(byName, x, y) && NoStrays(byName, x, y)
    requires OnlyTracks(x.ledger, y.ledger, list, at)
    requires TracksRules(x.ledger, y.ledger, rules, table) && Placeable(byName, rules)
    ensures Exact(byName, left, y) <==> RulesFit(x, rules, table)
  {
    ExtendingKeepsExact(byName, left, x, y, list, at);
    if RulesFit(x, rules, table) {
      forall n | n in x.ledger ensures y.ledger[n].table == x.ledger[n].table {
        if y.ledger[n] != x.ledger[n] {
          var r :| r in rules && r.name == n;
          assert PlaceIsFree(x, r, table);
        }
      }
      FitIsOneEach(byName, left, x, y.ledger, rules, table);
    }
    if Exact(byName, left, y) {
      OneEachIsFit(byName, left, x, y.ledger, rules, table);
    }
  }

  /** What an event needs of the state before it: a removal, that no route that stays lies below
      one that goes; an application, that its rules fit. */
  ghost predicate EventFits(s: EngineState, event: NetworkEvent) {
    s.phase == Running ==>
      if TakesDown(event) then
        && Tracked(Named(s.config), s.exec.ledger)
        && GoesFromBelow(EntriesVia(Named(s.config), s.exec.ledger, event.interface), s.exec.router.kernel.routes.Keys)
      else AsksForRules(s, event) ==> RulesFit(s.exec, NewRules(s, event), TableFor(s, event.interface).1)
  }

  lemma AskingIsForeseen(left: Leftovers, s: EngineState, event: NetworkEvent, order: seq<string>)
    requires s.phase == Running && Workable(s) && Exact(Named(s.config), left, s.exec)
    requires Faultless(s.exec.router.kernel) && AsksForRules(s, event)
    ensures Exact(Named(s.config), left, HandleEvent(s, event, order).exec) <==>
            RulesFit(s.exec, NewRules(s, event), TableFor(s, event.interface).1)
  {
    ExactIsInstalled(Named(s.config), left, s.exec);
    var list, at := AskingExtends(s, event, order);
    AskingTracksRules(s, event, order);
    ExactIffFit(Named(s.config), left, s.exec, HandleEvent(s, event, order).exec, NewRules(s, event), list,
                TableFor(s, event.interface).1, at);
  }

  /** One event, foreseen. */
  lemma EventIsForeseen(left: Leftovers, s: EngineState, event: NetworkEvent, order: seq<string>)
    requires Workable(s) && Exact(Named(s.config), left, s.exec) && ValidOrder(s, event, order)
    requires Faultless(s.exec.router.kernel)
    ensures Exact(Named(s.config), left, HandleEvent(s, event, order).exec) <==> EventFits(s, event)
  {
    if s.phase == Running {
      if TakesDown(event) {
        DownIsCleaned(left, s, event, order);
      } else if AsksForRules(s, event) {
        AskingIsForeseen(left, s, event, order);
      } else {
        OthersAreQuiet(s, event, order);
      }
    }
  }

  ghost predicate StepFits(s: EngineState, op: Op) {
    match op
    case Event(event, _) => EventFits(s, event)
    case Reload(config) => ReloadOrderly(Named(s.config), Named(config), s.exec.ledger)
    case Start => true
    case Stop => s.exec.ledger == map[]
  }

  ghost predicate AlwaysFits(s: EngineState, ops: seq<Op>)
    decreases |ops|
  {
    ops == [] || (StepFits(s, ops[0]) && AlwaysFits(StepOf(s, ops[0]), ops[1..]))
  }

  lemma StepIsForeseen(left: Leftovers, s: EngineState, op: Op)
    requires Workable(s) && Exact(Named(s.config), left, s.exec) && RealWalk(s, op)
    requires Faultless(s.exec.router.kernel) && (op.Reload? ==> DistinctConfig(op.config))
    ensures Workable(StepOf(s, op)) && Faultless(StepOf(s, op).exec.router.kernel)
    ensures Exact(Named(StepOf(s, op).config), left, StepOf(s, op).exec) <==> StepFits(s, op)
  {
    StepKeepsExact(left, s, op);
    StepTouches(s, op);
    if op.Event? && s.phase == Running {
      EventKeepsExact(left, s, op.event, op.order);
      EventIsForeseen(left, s, op.event, op.order);
    }
  }

  /** The exact ledger, foreseen: over every run without faults it is exact after each step if
      and only if each step fits the state it finds. */
  lemma {:induction false} ExactIsForeseen(left: Leftovers, s: EngineState, ops: seq<Op>)
    requires Workable(s) && Exact(Named(s.config), left, s.exec) && RealRun(s, ops) && Faultless(s.exec.router.kernel)
    ensures AlwaysExact(left, s, ops) <==> AlwaysFits(s, ops)
    decreases |ops|
  {
    if ops != [] {
      var next := StepOf(s, ops[0]);
      StepIsForeseen(left, s, ops[0]);
      if Exact(Named(next.config), left, next.exec) {
        ExactIsForeseen(left, next, ops[1..]);
      }
    }
  }

  /** No leftover has the place of an installable default rule in the table, and no two of them
      have one place. */
  ghost predicate DefaultsFit(left: Leftovers, rules: seq<RouteRule>, table: nat) {
    && (forall r :: r in rules && Installable(r) ==>
          EntryFor(r, table) !in left.rules && EntryFor(r, table) !in left.routes)
    && forall r, q :: r in rules && q in rules && Installable(r) && Installable(q) && SameSlot(r, q) ==> r == q
  }

  /** Startup, foreseen: over whatever is left it is exact if and only if no interface qualifies
      or the default rules fit in the first one's table. */
  lemma StartupIsForeseen(left: Leftovers, s: EngineState, infos: seq<InterfaceInfo>)
    requires Workable(s) && FreshOver(left, s) && Faultless(s.exec.router.kernel)
    ensures Exact(Named(s.config), left, ApplyInitial(s, infos).exec) <==>
            FirstUp(s.config, infos).None? ||
            DefaultsFit(left, s.config.defaultRules, TableFor(s, FirstUp(s.config, infos).value).1)
  {
    FreshIsExact(left, s);
    StartupInstallsOnce(s, infos);
    if FirstUp(s.config, infos).Some? {
      var table := TableFor(s, FirstUp(s.config, infos).value).1;
      DefaultsForeseen(left, s, table);
      assert ApplyInitial(s, infos).exec == ApplyDefaults(s.exec, s.config.defaultRules, table);
    }
  }

  lemma DefaultsForeseen(left: Leftovers, s: EngineState, table: nat)
    requires Workable(s) && FreshOver(left, s) && Faultless(s.exec.router.kernel)
    ensures Exact(Named(s.config), left, ApplyDefaults(s.exec, s.config.defaultRules, table)) <==>
            DefaultsFit(left, s.config.defaultRules, table)
  {
    var byName, rules := Named(s.config), s.config.defaultRules;
    NamedIsDistinct(s.config);
    assert forall r :: r in rules ==> r in AllRules(s.config);
    FreshIsExact(left, s);
    ExtendedByNothing(byName, s.exec);
    DefaultsExtend(byName, s.exec, s.exec, rules, table);
    DefaultsTrack(s.exec, rules, table);
    DefaultsTrackRules(byName, s.exec, rules, table);
    var added := UntrackedOf(rules, s.exec.ledger);
    ExactIffFit(byName, left, s.exec, ApplyDefaults(s.exec, rules, table), added, rules, table, table);
    assert forall r :: r in added <==> r in rules && Installable(r);
  }

  // ---------------------------------------------------------------------------------------
  // Soundness
  // ---------------------------------------------------------------------------------------

  /** No rule takes the place of a tracked rule that is not applied with it, or of another one
      of them. */
  ghost predicate OwnPlaces(byName: ByName, ledger: Ledger, rules: set<RouteRule>, table: nat)
    requires Tracked(byName, ledger) && Placeable(byName, rules)
  {
    && (forall r, n :: r in rules && n in ledger && NoneNamed(rules, n) ==>
          EntryOf(byName, ledger, n) != EntryFor(r, table))
    && forall r, q :: r in rules && q in rules && SameSlot(r, q) ==> r == q
  }

  ghost predicate NoneNamed(rules: set<RouteRule>, n: string) {
    forall r :: r in rules ==> r.name != n
  }

  /** Each rule tracked afterwards is one of these, or has the entry it had. */
  lemma AppliedOrOld(byName: ByName, ledger: Ledger, ledger': Ledger, rules: set<RouteRule>, table: nat, n: string)
    requires Tracked(byName, ledger) && Tracked(byName, ledger')
    requires TracksRules(ledger, ledger', rules, table) && Placeable(byName, rules) && n in ledger'
    ensures if NoneNamed(rules, n) then n in ledger && EntryOf(byName, ledger', n) == EntryOf(byName, ledger, n)
            else byName[n] in rules && byName[n].name == n && EntryOf(byName, ledger', n) == EntryFor(byName[n], table)
  {
    if r :| r in rules && r.name == n {
      assert byName[n] == r;
    }
  }

  lemma OneEachIffOwnPlaces(byName: ByName, ledger: Ledger, ledger': Ledger, rules: set<RouteRule>, table: nat)
    requires Tracked(byName, ledger) && Tracked(byName, ledger') && OneEach(byName, ledger)
    requires TracksRules(ledger, ledger', rules, table) && Placeable(byName, rules)
    ensures OneEach(byName, ledger') <==> OwnPlaces(byName, ledger, rules, table)
  {
    if OwnPlaces(byName, ledger, rules, table) {
      forall m, n | m in ledger' && n in ledger' && m != n
        ensures EntryOf(byName, ledger', m) != EntryOf(byName, ledger', n)
      {
        AppliedOrOld(byName, ledger, ledger', rules, table, m);
        AppliedOrOld(byName, ledger, ledger', rules, table, n);
      }
    }
    if OneEach(byName, ledger') {
      forall r, n | r in rules && n in ledger && NoneNamed(rules, n)
        ensures EntryOf(byName, ledger, n) != EntryFor(r, table)
      {
        AppliedOrOld(byName, ledger, ledger', rules, table, n);
        assert EntryOf(byName, ledger', r.name) == EntryFor(r, table);
      }
      forall r, q | r in rules && q in rules && SameSlot(r, q) ensures r == q {
        assert EntryOf(byName, ledger', r.name) == EntryOf(byName, ledger', q.name);
      }
    }
  }

  /** What an event needs of the state before it: a removal, enough routes below each rule that
      stays; an application, places of their own for its rules. */
  ghost predicate EventHasRoom(s: EngineState, event: NetworkEvent) {
    s.phase == Running ==>
      && Tracked(Named(s.config), s.exec.ledger)
      && if TakesDown(event) then RoomBelow(Named(s.config), s.exec, event.interface)
         else AsksForRules(s, event) ==>
           && Placeable(Named(s.config), NewRules(s, event))
           && OwnPlaces(Named(s.config), s.exec.ledger, NewRules(s, event), TableFor(s, event.interface).1)
  }

  lemma SoundAskingIsForeseen(s: EngineState, event: NetworkEvent, order: seq<string>)
    requires s.phase == Running && SoundState(s) && Faultless(s.exec.router.kernel) && AsksForRules(s, event)
    ensures SoundState(HandleEvent(s, event, order)) <==> EventHasRoom(s, event)
    ensures SameMachine(s.exec, HandleEvent(s, event, order).exec)
  {
    AskingKeepsSound(s, event, order);
    var _, _ := AskingExtends(s, event, order);
    AskingTracksRules(s, event, order);
    OneEachIffOwnPlaces(Named(s.config), s.exec.ledger, HandleEvent(s, event, order).exec.ledger, NewRules(s, event),
                        TableFor(s, event.interface).1);
  }

  lemma SoundEventIsForeseen(s: EngineState, event: NetworkEvent, order: seq<string>)
    requires SoundState(s) && ValidOrder(s, event, order) && Faultless(s.exec.router.kernel)
    ensures SoundState(HandleEvent(s, event, order)) <==> EventHasRoom(s, event)
    ensures Faultless(HandleEvent(s, event, order).exec.router.kernel)
  {
    if s.phase == Running {
      if TakesDown(event) {
        SoundDownByRoomBelow(s, event, order);
        DownIsOneStep(s, event, order);
        DownDrains(s, event.interface, order);
      } else if AsksForRules(s, event) {
        SoundAskingIsForeseen(s, event, order);
      } else {
        EventKeepsSound(s, event, order);
        OthersAreQuiet(s, event, order);
      }
    }
  }

  ghost predicate StepHasRoom(s: EngineState, op: Op) {
    match op
    case Event(event, _) => EventHasRoom(s, event)
    case Reload(config) => ReloadRoomy(config, s.exec)
    case _ => true
  }

  ghost predicate AlwaysHasRoom(s: EngineState, ops: seq<Op>)
    decreases |ops|
  {
    ops == [] || (StepHasRoom(s, ops[0]) && AlwaysHasRoom(StepOf(s, ops[0]), ops[1..]))
  }

  /** Soundness, foreseen: over every run without faults every tracked rule is installed after
      each step if and only if each step finds the room it needs. */
  lemma {:induction false} SoundIsForeseen(s: EngineState, ops: seq<Op>)
    requires SoundState(s) && RealRun(s, ops) && Faultless(s.exec.router.kernel)
    ensures AlwaysSound(s, ops) <==> AlwaysHasRoom(s, ops)
    decreases |ops|
  {
    if ops != [] {
      StepKeepsSound(s, ops[0]);
      if ops[0].Event? {
        SoundEventIsForeseen(s, ops[0].event, ops[0].order);
      }
      if SoundState(StepOf(s, ops[0])) {
        SoundIsForeseen(StepOf(s, ops[0]), ops[1..]);
      }
    }
  }
}
