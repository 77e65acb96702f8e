/** The executor and its ledger of active routes (src/engine/executor.rs). */
module Executor {
  import opened Wrappers
  import opened Config
  import opened Kernel
  import opened Rules

  datatype ActiveRoute = ActiveRoute(ruleName: string, interface: string, table: nat)

  type Ledger = map<string, ActiveRoute>

  datatype ExecState = ExecState(router: RouterState, ledger: Ledger)

  function Track(ledger: Ledger, rule: RouteRule, table: nat): Ledger {
    ledger[rule.name := ActiveRoute(rule.name, rule.via, table)]
  }

  /** Validate, drive the kernel, and only then track. */
  function Apply(x: ExecState, rule: RouteRule, table: nat): (ExecState, Result<()>) {
    if ValidateRule(rule).Err? then (x, ValidateRule(rule))
    else
      var (r, applied) := ApplyRule(x.router, rule, table);
      (ExecState(r, if applied.Ok? then Track(x.ledger, rule, table) else x.ledger), applied)
  }

  /** Drive the kernel, and only then untrack. */
  function Remove(x: ExecState, rule: RouteRule, table: nat): (ExecState, Result<()>) {
    var (r, removed) := RemoveRule(x.router, rule, table);
    (ExecState(r, if removed.Ok? then x.ledger - {rule.name} else x.ledger), removed)
  }

  function ApplyProfile(x: ExecState, rules: seq<RouteRule>, table: nat): ExecState
    decreases |rules|
  {
    if rules == [] then x
    else ApplyProfile(Apply(x, rules[0], table).0, rules[1..], table)
  }

  /** How many of the rules go through. */
  function AppliedCount(x: ExecState, rules: seq<RouteRule>, table: nat): nat
    decreases |rules|
  {
    if rules == [] then 0
    else
      var (next, r) := Apply(x, rules[0], table);
      (if r.Ok? then 1 else 0) + AppliedCount(next, rules[1..], table)
  }

  class RuleExecutor {
    var manager: RouteManager
    var activeRoutes: Ledger

    function View(): ExecState
      reads this, manager
    {
      ExecState(manager.View(), activeRoutes)
    }

    constructor (manager: RouteManager)
      ensures this.manager == manager && activeRoutes == map[]
    {
      this.manager, activeRoutes := manager, map[];
    }

    method SetRouteManager(manager: RouteManager)
      modifies this`manager
      ensures this.manager == manager
    {
      this.manager := manager;
    }

    method ApplyOne(rule: RouteRule, table: nat) returns (r: Result<()>)
      modifies this`activeRoutes, manager`kernel
      ensures (View(), r) == Apply(old(View()), rule, table)
    {
      r := ValidateRule(rule);
      if r.Err? { return; }
      r := ApplyRuleTo(manager, rule, table);
      if r.Ok? {
        activeRoutes := Track(activeRoutes, rule, table);
      }
    }

    method RemoveOne(rule: RouteRule, table: nat) returns (r: Result<()>)
      modifies this`activeRoutes, manager`kernel
      ensures (View(), r) == Remove(old(View()), rule, table)
    {
      r := RemoveRuleFrom(manager, rule, table);
      if r.Ok? {
        activeRoutes := activeRoutes - {rule.name};
      }
    }

    /** Failures are logged and skipped; the count is of the rules that went through. */
    method ApplyWifiProfile(profile: WifiProfile, table: nat) returns (applied: nat)
      modifies this`activeRoutes, manager`kernel
      ensures View() == ApplyProfile(old(View()), profile.rules, table)
      ensures applied == AppliedCount(old(View()), profile.rules, table)
    {
      applied := 0;
      for n := 0 to |profile.rules|
        invariant AppliedCount(old(View()), profile.rules, table) ==
                  applied + AppliedCount(View(), profile.rules[n..], table)
        invariant manager == old(manager)
        invariant ApplyProfile(old(View()), profile.rules, table) == ApplyProfile(View(), profile.rules[n..], table)
      {
        var r := ApplyOne(profile.rules[n], table);
        if r.Ok? {
          applied := applied + 1;
        }
      }
    }

    method ClearActiveRoutes()
      modifies this`activeRoutes
      ensures activeRoutes == map[]
    {
      activeRoutes := map[];
    }
  }

  // ---------------------------------------------------------------------------------------
  // Retrying one rule
  // ---------------------------------------------------------------------------------------

  /** The same tables and ledger; the request counter may differ. */
  ghost predicate SameTables(x: ExecState, y: ExecState) {
    && x.router.kernel.rules == y.router.kernel.rules
    && x.router.kernel.routes == y.router.kernel.routes
    && x.ledger == y.ledger
  }

  /** x with a kernel that refuses nothing. */
  function Faultlessly(x: ExecState): ExecState {
    x.(router := x.router.(kernel := x.router.kernel.(fault := (n, c) => false)))
  }

  /** n calls in a row that all fail, whatever the reason and however far each got. */
  ghost predicate FailsToApply(x: ExecState, rule: RouteRule, table: nat, n: nat, y: ExecState)
    decreases n
  {
    if n == 0 then y == x
    else Apply(x, rule, table).1.Err? && FailsToApply(Apply(x, rule, table).0, rule, table, n - 1, y)
  }

  ghost predicate FailsToRemove(x: ExecState, rule: RouteRule, table: nat, n: nat, y: ExecState)
    decreases n
  {
    if n == 0 then y == x
    else Remove(x, rule, table).1.Err? && FailsToRemove(Remove(x, rule, table).0, rule, table, n - 1, y)
  }

  /** Two executors that differ at most in the policy rule of an entry and in their faults. */
  ghost predicate UpToRule(x: ExecState, y: ExecState, e: Entry) {
    && y.ledger == x.ledger && y.router.kernel.routes == x.router.kernel.routes
    && y.router.kernel.rules + {e} == x.router.kernel.rules + {e}
    && y.router.dryRun == x.router.dryRun
    && y.router.kernel.missingRule == x.router.kernel.missingRule
    && y.router.kernel.missingRoute == x.router.kernel.missingRoute
  }

  lemma {:induction false} FailedAppliesLeave(x: ExecState, rule: RouteRule, table: nat, n: nat, y: ExecState)
    requires HasDestination(rule) && FailsToApply(x, rule, table, n, y)
    ensures UpToRule(x, y, EntryFor(rule, table)) && x.router.kernel.rules <= y.router.kernel.rules
    ensures x.router.dryRun ==> y == x
    decreases n
  {
    if n > 0 {
      FailedAppliesLeave(Apply(x, rule, table).0, rule, table, n - 1, y);
    }
  }

  lemma {:induction false} FailedRemovesLeave(x: ExecState, rule: RouteRule, table: nat, n: nat, y: ExecState)
    requires HasDestination(rule) && FailsToRemove(x, rule, table, n, y)
    ensures UpToRule(x, y, EntryFor(rule, table)) && y.router.kernel.rules <= x.router.kernel.rules
    ensures x.router.dryRun ==> y == x
    decreases n
  {
    if n > 0 {
      FailedRemovesLeave(Remove(x, rule, table).0, rule, table, n - 1, y);
    }
  }

  lemma ApplyIgnoresRule(x: ExecState, y: ExecState, rule: RouteRule, table: nat)
    requires HasDestination(rule) && UpToRule(x, y, EntryFor(rule, table)) && Apply(y, rule, table).1.Ok?
    requires x.router.dryRun ==> y == x
    ensures Apply(Faultlessly(x), rule, table).1.Ok?
    ensures SameTables(Apply(y, rule, table).0, Apply(Faultlessly(x), rule, table).0)
  {
  }

  lemma RemoveIgnoresRule(x: ExecState, y: ExecState, rule: RouteRule, table: nat)
    requires HasDestination(rule) && UpToRule(x, y, EntryFor(rule, table)) && Remove(y, rule, table).1.Ok?
    requires y.router.kernel.rules <= x.router.kernel.rules
    requires x.router.dryRun ==> y == x
    ensures Remove(Faultlessly(x), rule, table).1.Ok?
    ensures SameTables(Remove(y, rule, table).0, Remove(Faultlessly(x), rule, table).0)
  {
    var e := EntryFor(rule, table);
    assert y.router.kernel.rules - {e} == y.router.kernel.rules + {e} - {e};
    assert x.router.kernel.rules - {e} == x.router.kernel.rules + {e} - {e};
  }

  /** After any number of failed attempts a successful one reaches exactly what a single call
      on a kernel without faults would have reached. */
  lemma ApplyRetryConverges(x: ExecState, rule: RouteRule, table: nat, n: nat, y: ExecState)
    requires FailsToApply(x, rule, table, n, y) && Apply(y, rule, table).1.Ok?
    ensures Apply(Faultlessly(x), rule, table).1.Ok?
    ensures SameTables(Apply(y, rule, table).0, Apply(Faultlessly(x), rule, table).0)
  {
    FailedAppliesLeave(x, rule, table, n, y);
    ApplyIgnoresRule(x, y, rule, table);
  }

  /** The same for removals, whether or not the failed ones took the policy rule away. */
  lemma RemoveRetryConverges(x: ExecState, rule: RouteRule, table: nat, n: nat, y: ExecState)
    requires FailsToRemove(x, rule, table, n, y) && Remove(y, rule, table).1.Ok?
    ensures Remove(Faultlessly(x), rule, table).1.Ok?
    ensures SameTables(Remove(y, rule, table).0, Remove(Faultlessly(x), rule, table).0)
  {
    FailedRemovesLeave(x, rule, table, n, y);
    RemoveIgnoresRule(x, y, rule, table);
  }

  /** A removal that stopped half way is retried with success, once faults end, exactly when
      the kernel reports the absent policy rule as errno 2, ENOENT, or 6, ENXIO. */
  lemma HalfDoneRemovalRetry(x: ExecState, rule: RouteRule, table: nat)
    requires HasDestination(rule) && table <= MAX_TABLE_ID && !x.router.dryRun
    requires EntryFor(rule, table) !in x.router.kernel.rules
    requires HasRouteTo(x.router.kernel.routes, GetDestination(rule).value, table)
    ensures Remove(Faultlessly(x), rule, table).1.Ok? <==> x.router.kernel.missingRule in {2, 6}
  {
  }

  /** No kernel entry for this destination in the table at or below this rank. */
  ghost predicate DestinationFree(k: KernelState, e: Entry) {
    && e !in k.rules
    && forall f :: f in k.routes && f.dst == e.dst && f.table == e.table ==> e.rank < f.rank
  }

  /** Without faults, applying and then removing a rule restores both kernel tables exactly
      when the table held neither its policy rule nor a route to its destination that sorts
      at or before it; in particular whenever the destination was unused. */
  lemma ApplyThenRemoveRestores(x: ExecState, rule: RouteRule, table: nat)
    requires Installable(rule) && table <= MAX_TABLE_ID && !x.router.dryRun && Faultless(x.router.kernel)
    ensures var y := Remove(Apply(x, rule, table).0, rule, table);
            && y.1.Ok? && rule.name !in y.0.ledger
            && (DestinationFree(x.router.kernel, EntryFor(rule, table)) <==>
                y.0.router.kernel.rules == x.router.kernel.rules && y.0.router.kernel.routes == x.router.kernel.routes)
  {
    var e := EntryFor(rule, table);
    var k := x.router.kernel;
    var routes := if e in k.routes then k.routes else k.routes[e := rule.via];
    assert Apply(x, rule, table).0.router.kernel.routes == routes;
    assert Apply(x, rule, table).0.router.kernel.rules == k.rules + {e};
    assert e in routes;
    var low := LowestRoute(routes, e.dst, table);
    var y := Remove(Apply(x, rule, table).0, rule, table).0;
    assert y.router.kernel.routes == routes - {low};
    assert low !in y.router.kernel.routes;
    if DestinationFree(k, e) {
      assert low == e;
      assert k.rules + {e} - {e} == k.rules;
    } else if e in k.rules {
      assert e !in y.router.kernel.rules;
    } else {
      var f :| f in k.routes && f.dst == e.dst && f.table == e.table && f.rank <= e.rank;
      assert f in routes && low.rank <= f.rank;
      assert low in k.routes;
    }
  }

  /** Removal names no metric: without faults it takes the rule's own route, and no other,
      exactly when no route to the same destination in the table has a lower metric. */
  lemma RemoveTakesOwnRoute(x: ExecState, rule: RouteRule, table: nat)
    requires HasDestination(rule) && table <= MAX_TABLE_ID && !x.router.dryRun && Faultless(x.router.kernel)
    requires EntryFor(rule, table) in x.router.kernel.rules && EntryFor(rule, table) in x.router.kernel.routes
    ensures var e := EntryFor(rule, table);
            Remove(x, rule, table).0.router.kernel.routes == x.router.kernel.routes - {e} <==>
            forall f :: f in x.router.kernel.routes && f.dst == e.dst && f.table == table ==> e.rank <= f.rank
  {
    var e := EntryFor(rule, table);
    var routes := x.router.kernel.routes;
    var low := LowestRoute(routes, e.dst, table);
    assert Remove(x, rule, table).0.router.kernel.routes == routes - {low};
    assert low in routes - {e} <==> low != e;
  }

  /** A removal that finds no policy rule. */
  lemma RemovalWithoutRule(x: ExecState, rule: RouteRule, table: nat)
    requires HasDestination(rule) && table <= MAX_TABLE_ID && !x.router.dryRun && Faultless(x.router.kernel)
    requires EntryFor(rule, table) !in x.router.kernel.rules
    ensures var (y, r) := Remove(x, rule, table);
            var k, more := x.router.kernel, HasRouteTo(x.router.kernel.routes, GetDestination(rule).value, table);
            && (r.Ok? <==> k.missingRule in {2, 6} && (more || k.missingRoute in {2, 6}))
            && y.router.kernel.rules == k.rules
            && (r.Ok? && !more ==> y.router.kernel.routes == k.routes)
            && (r.Ok? && more ==> y.router.kernel.routes != k.routes)
            && y.ledger == if r.Ok? then x.ledger - {rule.name} else x.ledger
  {
    if HasRouteTo(x.router.kernel.routes, GetDestination(rule).value, table) {
      var low := LowestRoute(x.router.kernel.routes, GetDestination(rule).value, table);
      assert low in x.router.kernel.routes && low !in x.router.kernel.routes - {low};
    }
  }

  /** Removing a rule twice: once the first removal went through, the second succeeds exactly
      when the absent policy rule is answered by errno 2 or 6 and, unless it finds another
      route to the destination to delete, the absent route is too. It changes nothing exactly
      when there is no other such route. */
  lemma RepeatedRemoval(x: ExecState, rule: RouteRule, table: nat)
    requires HasDestination(rule) && !x.router.dryRun && Faultless(x.router.kernel)
    requires Remove(x, rule, table).1.Ok?
    ensures var k, y, again := x.router.kernel, Remove(x, rule, table).0, Remove(Remove(x, rule, table).0, rule, table);
            var more := HasRouteTo(y.router.kernel.routes, GetDestination(rule).value, table);
            && (again.1.Ok? <==> k.missingRule in {2, 6} && (more || k.missingRoute in {2, 6}))
            && (again.1.Ok? ==> (SameTables(y, again.0) <==> !more))
  {
    var y := Remove(x, rule, table).0;
    assert EntryFor(rule, table) !in y.router.kernel.rules && y.ledger - {rule.name} == y.ledger;
    assert y.router.kernel.missingRule == x.router.kernel.missingRule;
    assert y.router.kernel.missingRoute == x.router.kernel.missingRoute;
    RemovalWithoutRule(y, rule, table);
  }
}
