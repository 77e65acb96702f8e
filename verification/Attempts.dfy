/** No rule is given up for another's failure: every request refused costs one rule, and no more
    (src/engine/dispatcher.rs, src/engine/executor.rs). */
module Attempts {
  import opened Config
  import opened Kernel
  import opened Rules
  import opened Executor
  import opened State
  import opened Dispatcher
  import opened LedgerInvariants
  import opened RuleNames
  import opened Draining
  import opened Runs
  import opened LedgerRuns
  import opened Soundness
  import opened Reactions
  import opened Tallies

  /** One application: no attempt for an invalid rule and one for any other. */
  function AttemptOf(x: ExecState, rule: RouteRule, table: nat): Tally {
    if !Installable(rule) then Tally(0, 0) else if Apply(x, rule, table).1.Ok? then Tally(1, 0) else Tally(0, 1)
  }

  lemma OneAddition(x: ExecState, rule: RouteRule, table: nat)
    requires !x.router.dryRun
    ensures var (y, r) := Apply(x, rule, table);
            && AddedBy(x, y, AttemptOf(x, rule, table))
            && (r.Ok? ==> Installable(rule) && y.ledger == Track(x.ledger, rule, table) && Landed(y, rule, table))
            && (r.Err? ==> y.ledger == x.ledger)
  {
    OneAdditionRequests(x, rule, table);
    if Installable(rule) {
      CountedPair(x.router.kernel, Apply(x, rule, table).0.router.kernel, AddRuleCall, AddRouteCall);
    }
  }

  lemma OneAdditionRequests(x: ExecState, rule: RouteRule, table: nat)
    requires !x.router.dryRun
    ensures var (y, r) := Apply(x, rule, table);
            var k, k' := x.router.kernel, y.router.kernel;
            && k'.fault == k.fault
            && (!Installable(rule) ==> y == x && r.Err?)
            && (Installable(rule) ==>
                  && k'.calls == AfterPair(k.fault, k.calls, AddRuleCall)
                  && (r.Ok? <==> PairGranted(k.fault, k.calls, AddRuleCall, AddRouteCall)))
  {
  }

  // ---------------------------------------------------------------------------------------
  // Default rules
  // ---------------------------------------------------------------------------------------

  lemma {:induction false} DefaultsAreTried(x: ExecState, rules: seq<RouteRule>, table: nat) returns (t: Tally)
    requires !x.router.dryRun
    ensures var y := ApplyDefaults(x, rules, table); AddedBy(x, y, t) && DefaultsTried(x, y, rules, table, t)
    decreases |rules|
  {
    if rules == [] {
      t := Tally(0, 0);
    } else if rules[0].name in x.ledger {
      t := DefaultsAreTried(x, rules[1..], table);
      SkippedDefault(x, ApplyDefaults(x, rules, table), rules, table, t);
    } else {
      var next := Apply(x, rules[0], table).0;
      OneAddition(x, rules[0], table);
      var rest := DefaultsAreTried(next, rules[1..], table);
      t := Plus(AttemptOf(x, rules[0], table), rest);
      AddedThen(x, next, ApplyDefaults(x, rules, table), AttemptOf(x, rules[0], table), rest);
      if !Installable(rules[0]) {
        SkippedDefault(x, ApplyDefaults(x, rules, table), rules, table, rest);
      } else if Apply(x, rules[0], table).1.Ok? {
        GrantedDefault(x, next, ApplyDefaults(x, rules, table), rules, table, rest);
      } else {
        RefusedDefault(x, next, ApplyDefaults(x, rules, table), rules, table, rest);
      }
    }
  }

  // ---------------------------------------------------------------------------------------
  // Profiles
  // ---------------------------------------------------------------------------------------

  lemma {:induction false} ProfileIsTried(x: ExecState, rules: seq<RouteRule>, table: nat) returns (t: Tally)
    requires !x.router.dryRun
    ensures var y := ApplyProfile(x, rules, table);
            AddedBy(x, y, t) && ProfileTried(x, y, rules, table, AppliedCount(x, rules, table), t)
    decreases |rules|
  {
    if rules == [] {
      t := Tally(0, 0);
    } else {
      var next := Apply(x, rules[0], table).0;
      OneAddition(x, rules[0], table);
      var rest := ProfileIsTried(next, rules[1..], table);
      t := Plus(AttemptOf(x, rules[0], table), rest);
      AddedThen(x, next, ApplyProfile(x, rules, table), AttemptOf(x, rules[0], table), rest);
      ProfileStep(x, next, ApplyProfile(x, rules, table), rules, table, Apply(x, rules[0], table).1.Ok?,
                  AppliedCount(next, rules[1..], table), rest);
    }
  }

  /** The count returned for a profile when nothing is refused, or in a dry run: its installable
      rules. */
  lemma {:induction false} CountIsInstallable(x: ExecState, rules: seq<RouteRule>, table: nat)
    requires NeverRefuses(x.router)
    ensures AppliedCount(x, rules, table) == HowMany(rules)
    decreases |rules|
  {
    if rules != [] {
      OneApplied(x, rules[0], table);
      CountIsInstallable(Apply(x, rules[0], table).0, rules[1..], table);
    }
  }

  lemma ProfileTally(x: ExecState, rules: seq<RouteRule>, table: nat)
    requires !x.router.dryRun
    ensures var y := ApplyProfile(x, rules, table);
            ProfileTried(x, y, rules, table, AppliedCount(x, rules, table), AddTally(x.router.kernel, y.router.kernel))
  {
    var t := ProfileIsTried(x, rules, table);
    CountedIsTally(x.router.kernel, ApplyProfile(x, rules, table).router.kernel, AddRuleCall, AddRouteCall, t);
  }

  lemma DefaultsTally(x: ExecState, rules: seq<RouteRule>, table: nat)
    requires !x.router.dryRun
    ensures var y := ApplyDefaults(x, rules, table);
            DefaultsTried(x, y, rules, table, AddTally(x.router.kernel, y.router.kernel))
  {
    var t := DefaultsAreTried(x, rules, table);
    CountedIsTally(x.router.kernel, ApplyDefaults(x, rules, table).router.kernel, AddRuleCall, AddRouteCall, t);
  }

  /** An event that asks for rules, whatever is refused: of a profile each installable rule is
      attempted once, of the default rules each name not tracked, and what is missing afterwards
      is paid for by attempts refused between the two states. */
  lemma AskingTriesAll(s: EngineState, event: NetworkEvent, order: seq<string>)
    requires s.phase == Running && AsksForRules(s, event) && !s.exec.router.dryRun
    ensures var y, table := HandleEvent(s, event, order).exec, TableFor(s, event.interface).1;
            var t := AddTally(s.exec.router.kernel, y.router.kernel);
            if ProfileNow(s, event).Some? then
              var rules := ProfileNow(s, event).value;
              ProfileTried(s.exec, y, rules, table, AppliedCount(s.exec, rules, table), t)
            else DefaultsTried(s.exec, y, s.config.defaultRules, table, t)
  {
    AskingIsOneStep(s, event, order);
    if ProfileNow(s, event).Some? {
      ProfileTally(s.exec, ProfileNow(s, event).value, TableFor(s, event.interface).1);
    } else {
      DefaultsTally(s.exec, s.config.defaultRules, TableFor(s, event.interface).1);
    }
  }

  // ---------------------------------------------------------------------------------------
  // Startup
  // ---------------------------------------------------------------------------------------

  /** How many of the listed interfaces are up and configured. */
  function Qualifying(config: Config, infos: seq<InterfaceInfo>): nat {
    if infos == [] then 0
    else (if infos[0].isUp && infos[0].name in config.interfaces then 1 else 0) + Qualifying(config, infos[1..])
  }

  /** The default rules applied once for each of the tables. */
  function ApplyInTables(x: ExecState, rules: seq<RouteRule>, tables: seq<nat>): ExecState
    decreases |tables|
  {
    if tables == [] then x else ApplyInTables(ApplyDefaults(x, rules, tables[0]), rules, tables[1..])
  }

  lemma {:induction false} StartupIsInTables(s: EngineState, infos: seq<InterfaceInfo>) returns (tables: seq<nat>)
    ensures |tables| == Qualifying(s.config, infos)
    ensures ApplyInitial(s, infos).exec == ApplyInTables(s.exec, s.config.defaultRules, tables)
    decreases |infos|
  {
    if infos == [] {
      tables := [];
    } else if infos[0].isUp && infos[0].name in s.config.interfaces {
      var table := DefaultRulesAreAll(s, infos[0].name);
      var rest := StartupIsInTables(ApplyDefaultRules(s, infos[0].name), infos[1..]);
      tables := [table] + rest;
    } else {
      tables := StartupIsInTables(s, infos[1..]);
    }
  }

  lemma {:induction false} TablesAreTried(x: ExecState, rules: seq<RouteRule>, tables: seq<nat>) returns (t: Tally)
    requires !x.router.dryRun
    ensures var y := ApplyInTables(x, rules, tables); AddedBy(x, y, t) && StartupTried(x, y, rules, |tables|, t)
    decreases |tables|
  {
    if tables == [] {
      t := Tally(0, 0);
    } else {
      var next := ApplyDefaults(x, rules, tables[0]);
      var a := DefaultsAreTried(x, rules, tables[0]);
      var b := TablesAreTried(next, rules, tables[1..]);
      t := Plus(a, b);
      AddedThen(x, next, ApplyInTables(x, rules, tables), a, b);
      StartupStep(x, next, ApplyInTables(x, rules, tables), rules, tables[0], a, |tables[1..]|, |tables|, b);
    }
  }

  /** Startup, whatever is refused: an installable default rule is missing only if its requests
      were refused for every interface that qualifies. */
  lemma StartupTriesAll(s: EngineState, infos: seq<InterfaceInfo>)
    requires !s.exec.router.dryRun
    ensures var y := ApplyInitial(s, infos).exec;
            var t := AddTally(s.exec.router.kernel, y.router.kernel);
            && |NewNames(s.exec.ledger, y.ledger)| == t.granted
            && (forall n :: n in s.exec.ledger ==> n in y.ledger && y.ledger[n] == s.exec.ledger[n])
            && |MissingNames(s.config.defaultRules, y.ledger)| * Qualifying(s.config, infos) <= t.refused
  {
    var tables := StartupIsInTables(s, infos);
    var t := TablesAreTried(s.exec, s.config.defaultRules, tables);
    TimesIsProduct(|MissingNames(s.config.defaultRules, ApplyInitial(s, infos).exec.ledger)|,
                   Qualifying(s.config, infos));
    CountedIsTally(s.exec.router.kernel, ApplyInitial(s, infos).exec.router.kernel, AddRuleCall, AddRouteCall, t);
  }

  // ---------------------------------------------------------------------------------------
  // Removals
  // ---------------------------------------------------------------------------------------

  /** What the removal of the rule asks for is there, or its absence is no error. */
  predicate Answered(x: ExecState, rule: RouteRule, table: nat)
    requires HasDestination(rule)
  {
    var e, k := EntryFor(rule, table), x.router.kernel;
    && (e in k.rules || k.missingRule in {2, 6})
    && (HasRouteTo(k.routes, e.dst, table) || k.missingRoute in {2, 6})
  }

  lemma OneRemoval(x: ExecState, rule: RouteRule, table: nat)
    requires !x.router.dryRun && HasDestination(rule) && Answered(x, rule, table)
    ensures var (y, r) := Remove(x, rule, table);
            && RemovedOne(x, y, rule.name, table, r.Ok?) && !y.router.dryRun
            && y.router.kernel.missingRule == x.router.kernel.missingRule
            && y.router.kernel.missingRoute == x.router.kernel.missingRoute
  {
  }

  /** Every removal in the row finds what it asks for, or its absence is no error. */
  ghost predicate AlwaysAnswered(x: ExecState, byName: ByName, tables: Ledger, order: seq<string>)
    decreases |order|
  {
    order == [] ||
    (var n := order[0];
     && n in byName && n in tables && HasDestination(byName[n]) && Answered(x, byName[n], tables[n].table)
     && AlwaysAnswered(Remove(x, byName[n], tables[n].table).0, byName, tables, order[1..]))
  }

  lemma {:induction false} RemovalsAreTried(x: ExecState, byName: ByName, tables: Ledger, order: seq<string>)
    returns (t: Tally)
    requires !x.router.dryRun && KeyedByName(byName) && AlwaysAnswered(x, byName, tables, order)
    requires forall i, j :: 0 <= i < j < |order| ==> order[i] != order[j]
    requires forall n :: n in order ==> n in x.ledger
    ensures var y := RemoveAll(x, byName, tables, order);
            && Counted(x.router.kernel, y.router.kernel, DelRuleCall, DelRouteCall, t)
            && RemovalsTried(x, y, tables, order, t)
    decreases |order|
  {
    if order == [] {
      t := Tally(0, 0);
    } else {
      var n := order[0];
      var (next, r) := Remove(x, byName[n], tables[n].table);
      OneRemoval(x, byName[n], tables[n].table);
      assert n !in order[1..];
      var rest := RemovalsAreTried(next, byName, tables, order[1..]);
      t := RemovalOneMore(x, next, RemoveAll(x, byName, tables, order), tables, order, r.Ok?, rest);
    }
  }

  /** The kernel answers a deletion of what is not there by an errno that counts as success. */
  predicate ForgivesAbsence(k: KernelState) {
    k.missingRule in {2, 6} && k.missingRoute in {2, 6}
  }

  lemma {:induction false} ForgivenIsAnswered(x: ExecState, byName: ByName, tables: Ledger, order: seq<string>)
    requires !x.router.dryRun && ForgivesAbsence(x.router.kernel)
    requires forall n :: n in order ==> n in byName && n in tables && HasDestination(byName[n])
    ensures AlwaysAnswered(x, byName, tables, order)
    decreases |order|
  {
    if order != [] {
      var n := order[0];
      assert n in order && forall m :: m in order[1..] ==> m in order;
      OneRemoval(x, byName[n], tables[n].table);
      ForgivenIsAnswered(Remove(x, byName[n], tables[n].table).0, byName, tables, order[1..]);
    }
  }

  /** Where every tracked rule is installed with an entry of its own, removals find what they ask
      for, whatever is refused in between. */
  lemma {:induction false} InstalledIsAnswered(byName: ByName, x: ExecState, y: ExecState, tables: Ledger,
      order: seq<string>)
    requires KeyedByName(byName) && AllInstalled(byName, x) && Drained(byName, x, y)
    requires StillTracked(byName, y, tables, order) && !y.router.dryRun
    ensures AlwaysAnswered(y, byName, tables, order)
    decreases |order|
  {
    if order != [] {
      var n := order[0];
      assert n in order;
      DrainStep(byName, x, y, n);
      StillRouted(byName, x, y, n);
      StillTrackedStep(byName, y, Remove(y, byName[n], tables[n].table).0, tables, order);
      InstalledIsAnswered(byName, x, Remove(y, byName[n], tables[n].table).0, tables, order[1..]);
    }
  }

  /** A Down or Removed event, whatever is refused, where absence is forgiven or every tracked
      rule is installed: as many rules are gone as removals were granted, and as many victims, in
      tables a removal can name, are still tracked as removals were refused. */
  lemma DownTriesAll(s: EngineState, event: NetworkEvent, order: seq<string>)
    requires event.InterfaceChanged? && event.change in {Down, Removed}
    requires s.phase == Running && ValidOrder(s, event, order) && Workable(s)
    requires Tracked(Named(s.config), s.exec.ledger)
    requires ForgivesAbsence(s.exec.router.kernel) || SoundState(s)
    ensures var y := HandleEvent(s, event, order).exec;
            RemovalsTried(s.exec, y, s.exec.ledger, order,
                          RemoveTally(s.exec.router.kernel, y.router.kernel))
  {
    var byName := Named(s.config);
    DownIsOneStep(s, event, order);
    NamedIsDistinct(s.config);
    if ForgivesAbsence(s.exec.router.kernel) {
      ForgivenIsAnswered(s.exec, byName, s.exec.ledger, order);
    } else {
      DrainedOfNothing(byName, s.exec);
      VictimsAreTracked(byName, s.exec, event.interface, order);
      InstalledIsAnswered(byName, s.exec, s.exec, s.exec.ledger, order);
    }
    var t := RemovalsAreTried(s.exec, byName, s.exec.ledger, order);
    CountedIsTally(s.exec.router.kernel, HandleDown(s, order).exec.router.kernel, DelRuleCall, DelRouteCall, t);
  }
}
