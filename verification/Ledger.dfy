/** The ledger against the kernel: what each rule application and removal keeps
    (src/engine/executor.rs, src/router/rules.rs). */
module LedgerInvariants {
  import opened Config
  import opened Kernel
  import opened Rules
  import opened Executor

  type ByName = map<string, RouteRule>

  /** Each rule is held under its own name. */
  ghost predicate KeyedByName(byName: ByName) {
    forall n :: n in byName ==> byName[n].name == n
  }

  /** The rule is the one the table holds under its name. */
  predicate Registered(byName: ByName, rule: RouteRule) {
    rule.name in byName && byName[rule.name] == rule
  }

  /** Every tracked entry belongs to a rule and names that rule's interface. */
  ghost predicate Tracked(byName: ByName, ledger: Ledger) {
    forall n :: n in ledger ==>
      n in byName && HasDestination(byName[n]) && ledger[n].interface == byName[n].via
  }

  /** The kernel entry that tracking n stands for. */
  function EntryOf(byName: ByName, ledger: Ledger, n: string): Entry
    requires n in ledger && n in byName && HasDestination(byName[n])
  {
    EntryFor(byName[n], ledger[n].table)
  }

  ghost function Determined(byName: ByName, ledger: Ledger): set<Entry>
    requires Tracked(byName, ledger)
  {
    set n | n in ledger :: EntryOf(byName, ledger, n)
  }

  /** No two tracked rules stand for one entry. */
  ghost predicate OneEach(byName: ByName, ledger: Ledger)
    requires Tracked(byName, ledger)
  {
    forall m, n :: m in ledger && n in ledger && m != n ==> EntryOf(byName, ledger, m) != EntryOf(byName, ledger, n)
  }

  /** Besides what is left over from before, which no tracked entry coincides with, both kernel
      tables hold exactly the entries the ledger determines, one for each tracked rule, and
      each route goes via its rule's interface. */
  ghost predicate Exact(byName: ByName, left: Leftovers, x: ExecState) {
    && Tracked(byName, x.ledger) && OneEach(byName, x.ledger)
    && Accounts(Determined(byName, x.ledger), left, x.router.kernel.rules, x.router.kernel.routes)
    && AtHome(byName, x.ledger, x.router.kernel.routes)
  }

  /** The policy rules are these entries and the leftovers, and so are the routes. */
  ghost predicate Accounts(entries: set<Entry>, left: Leftovers, rules: set<Entry>, routes: map<Entry, string>) {
    && Apart(entries, left)
    && rules == entries + left.rules
    && routes.Keys == entries + left.routes.Keys
    && forall e :: e in left.routes ==> e in routes && routes[e] == left.routes[e]
  }

  ghost predicate Apart(entries: set<Entry>, left: Leftovers) {
    entries !! left.rules && entries !! left.routes.Keys
  }

  lemma AccountsForLess(entries: set<Entry>, left: Leftovers, rules: set<Entry>, routes: map<Entry, string>,
      gone: set<Entry>)
    requires Accounts(entries, left, rules, routes) && gone <= entries
    ensures Accounts(entries - gone, left, rules - gone, routes - gone)
  {
    assert (routes - gone).Keys == routes.Keys - gone;
  }

  lemma AccountsForMore(entries: set<Entry>, left: Leftovers, rules: set<Entry>, routes: map<Entry, string>,
      routes': map<Entry, string>, e: Entry)
    requires Accounts(entries, left, rules, routes)
    requires routes'.Keys == routes.Keys + {e} && forall f :: f in routes ==> routes'[f] == routes[f]
    ensures Accounts(entries + {e}, left, rules + {e}, routes') <==> e !in left.rules && e !in left.routes
  {
  }

  /** Every tracked rule has its route, via its own interface. */
  ghost predicate AtHome(byName: ByName, ledger: Ledger, routes: map<Entry, string>)
    requires Tracked(byName, ledger)
  {
    forall n :: n in ledger ==>
      EntryOf(byName, ledger, n) in routes && routes[EntryOf(byName, ledger, n)] == byName[n].via
  }

  /** Routes that stay keep the tracked rules at home whose entries they are. */
  lemma StayingAtHome(byName: ByName, ledger: Ledger, ledger': Ledger, routes: map<Entry, string>,
      routes': map<Entry, string>)
    requires Tracked(byName, ledger) && Tracked(byName, ledger') && AtHome(byName, ledger, routes)
    requires forall n :: n in ledger' ==> n in ledger && ledger'[n] == ledger[n]
    requires forall e :: e in routes' && e in routes ==> routes'[e] == routes[e]
    requires Determined(byName, ledger') <= routes'.Keys
    ensures AtHome(byName, ledger', routes')
  {
    forall n | n in ledger'
      ensures EntryOf(byName, ledger', n) in routes' && routes'[EntryOf(byName, ledger', n)] == byName[n].via
    {
      assert EntryOf(byName, ledger', n) == EntryOf(byName, ledger, n);
      assert EntryOf(byName, ledger', n) in Determined(byName, ledger');
    }
  }

  /** From now on the second request of a pair is never refused: a whole application or
      removal either completes or changes nothing. */
  ghost predicate WholeOperations(k: KernelState) {
    forall n :: k.calls <= n ==> !k.fault(n, AddRouteCall) && !k.fault(n, DelRouteCall)
  }

  /** A ledger with one more name determines that name's entry besides. */
  lemma DeterminedOneMore(byName: ByName, ledger: Ledger, more: Ledger, n: string)
    requires Tracked(byName, ledger) && Tracked(byName, more) && more.Keys == ledger.Keys + {n}
    requires forall m :: m in ledger ==> EntryOf(byName, more, m) == EntryOf(byName, ledger, m)
    ensures Determined(byName, more) == Determined(byName, ledger) + {EntryOf(byName, more, n)}
  {
    forall e | e in Determined(byName, more)
      ensures e in Determined(byName, ledger) + {EntryOf(byName, more, n)}
    {
      var m :| m in more && EntryOf(byName, more, m) == e;
    }
    forall e | e in Determined(byName, ledger) ensures e in Determined(byName, more) {
      var m :| m in ledger && EntryOf(byName, ledger, m) == e;
      assert m in more && EntryOf(byName, more, m) == e;
    }
  }

  lemma DeterminedUntrack(byName: ByName, ledger: Ledger, n: string)
    requires Tracked(byName, ledger) && n in ledger
    ensures Tracked(byName, ledger - {n})
    ensures Determined(byName, ledger) == Determined(byName, ledger - {n}) + {EntryOf(byName, ledger, n)}
    ensures OneEach(byName, ledger) ==>
              OneEach(byName, ledger - {n}) && EntryOf(byName, ledger, n) !in Determined(byName, ledger - {n})
  {
    var less := ledger - {n};
    assert less.Keys + {n} == ledger.Keys;
    assert forall m :: m in less ==> EntryOf(byName, less, m) == EntryOf(byName, ledger, m);
    DeterminedOneMore(byName, less, ledger, n);
  }

  /** Tracking a rule in a table adds its entry there, and drops the one it had elsewhere. */
  lemma DeterminedTrack(byName: ByName, ledger: Ledger, rule: RouteRule, table: nat)
    requires Tracked(byName, ledger) && Registered(byName, rule) && HasDestination(rule)
    ensures Tracked(byName, Track(ledger, rule, table)) && Tracked(byName, ledger - {rule.name})
    ensures Determined(byName, Track(ledger, rule, table)) ==
            Determined(byName, ledger - {rule.name}) + {EntryFor(rule, table)}
  {
    var less, more := ledger - {rule.name}, Track(ledger, rule, table);
    assert more.Keys == less.Keys + {rule.name};
    assert forall m :: m in less ==> EntryOf(byName, more, m) == EntryOf(byName, less, m);
    DeterminedOneMore(byName, less, more, rule.name);
  }

  /** Everything about an executor that applying and removing rules never changes. */
  ghost predicate SameMachine(x: ExecState, y: ExecState) {
    && y.router.base == x.router.base && y.router.dryRun == x.router.dryRun
    && y.router.kernel.fault == x.router.kernel.fault
    && y.router.kernel.missingRule == x.router.kernel.missingRule
    && y.router.kernel.missingRoute == x.router.kernel.missingRoute
    && x.router.kernel.calls <= y.router.kernel.calls
  }

  /** A finished application: both entries are there, and the rule is tracked. */
  ghost predicate Installed(x: ExecState, y: ExecState, rule: RouteRule, table: nat) {
    && HasDestination(rule)
    && y.ledger == Track(x.ledger, rule, table)
    && y.router.kernel.rules == x.router.kernel.rules + {EntryFor(rule, table)}
    && y.router.kernel.routes == if EntryFor(rule, table) in x.router.kernel.routes then x.router.kernel.routes
                                 else x.router.kernel.routes[EntryFor(rule, table) := rule.via]
  }

  /** The application's policy rule is granted and its route is refused. */
  predicate AddsHalfWay(k: KernelState, rule: RouteRule) {
    Installable(rule) && !k.fault(k.calls, AddRuleCall) && k.fault(k.calls + 1, AddRouteCall)
  }

  lemma ApplyOutcome(x: ExecState, rule: RouteRule, table: nat)
    requires !x.router.dryRun
    ensures var (y, r) := Apply(x, rule, table);
            && SameMachine(x, y)
            && if r.Ok? then Installable(rule) && Installed(x, y, rule, table)
               else if AddsHalfWay(x.router.kernel, rule) then
                 && y.ledger == x.ledger && y.router.kernel.routes == x.router.kernel.routes
                 && y.router.kernel.rules == x.router.kernel.rules + {EntryFor(rule, table)}
               else SameTables(x, y)
  {
  }

  /** The rule may be tracked in the table without harm: it already is, or it is not tracked
      and neither a tracked rule nor a leftover has its place. */
  predicate PlaceIsFree(x: ExecState, rule: RouteRule, table: nat) {
    if rule.name in x.ledger then x.ledger[rule.name].table == table
    else
      && HasDestination(rule)
      && EntryFor(rule, table) !in x.router.kernel.rules && EntryFor(rule, table) !in x.router.kernel.routes
  }

  /** A newly tracked rule has an entry of its own exactly when no other determined it. */
  lemma NewlyTracked(byName: ByName, ledger: Ledger, rule: RouteRule, table: nat)
    requires Tracked(byName, ledger) && OneEach(byName, ledger) && Registered(byName, rule) && HasDestination(rule)
    requires rule.name !in ledger
    ensures Tracked(byName, Track(ledger, rule, table))
    ensures OneEach(byName, Track(ledger, rule, table)) <==> EntryFor(rule, table) !in Determined(byName, ledger)
    ensures Determined(byName, Track(ledger, rule, table)) == Determined(byName, ledger) + {EntryFor(rule, table)}
  {
    var more := Track(ledger, rule, table);
    assert ledger - {rule.name} == ledger;
    DeterminedTrack(byName, ledger, rule, table);
    assert forall m :: m in ledger ==> EntryOf(byName, more, m) == EntryOf(byName, ledger, m);
    assert EntryOf(byName, more, rule.name) == EntryFor(rule, table);
    if EntryFor(rule, table) in Determined(byName, ledger) {
      var m :| m in ledger && EntryOf(byName, ledger, m) == EntryFor(rule, table);
      assert EntryOf(byName, more, m) == EntryOf(byName, more, rule.name);
    }
  }

  lemma NewlyAtHome(byName: ByName, x: ExecState, y: ExecState, rule: RouteRule, table: nat)
    requires Tracked(byName, x.ledger) && Tracked(byName, y.ledger) && AtHome(byName, x.ledger, x.router.kernel.routes)
    requires Registered(byName, rule) && Installed(x, y, rule, table)
    requires EntryFor(rule, table) !in x.router.kernel.routes
    ensures AtHome(byName, y.ledger, y.router.kernel.routes)
  {
    var routes' := y.router.kernel.routes;
    forall n | n in y.ledger
      ensures EntryOf(byName, y.ledger, n) in routes' && routes'[EntryOf(byName, y.ledger, n)] == byName[n].via
    {
      if n != rule.name {
        assert EntryOf(byName, y.ledger, n) == EntryOf(byName, x.ledger, n);
      }
    }
  }

  lemma NewlyInstalled(byName: ByName, left: Leftovers, x: ExecState, y: ExecState, rule: RouteRule, table: nat)
    requires Exact(byName, left, x) && Registered(byName, rule) && Installed(x, y, rule, table)
    requires rule.name !in x.ledger
    ensures Exact(byName, left, y) <==> PlaceIsFree(x, rule, table)
  {
    var e := EntryFor(rule, table);
    var d := Determined(byName, x.ledger);
    NewlyTracked(byName, x.ledger, rule, table);
    AccountsForMore(d, left, x.router.kernel.rules, x.router.kernel.routes, y.router.kernel.routes, e);
    if e !in x.router.kernel.routes {
      NewlyAtHome(byName, x, y, rule, table);
    }
  }

  lemma InstalledAgain(byName: ByName, left: Leftovers, x: ExecState, y: ExecState, rule: RouteRule, table: nat)
    requires Exact(byName, left, x) && Registered(byName, rule) && Installed(x, y, rule, table)
    requires rule.name in x.ledger && x.ledger[rule.name].table == table
    ensures Exact(byName, left, y)
  {
    var e := EntryFor(rule, table);
    assert EntryOf(byName, x.ledger, rule.name) == e && e in Determined(byName, x.ledger);
    assert y.ledger.Keys == x.ledger.Keys;
    assert forall m :: m in x.ledger ==> EntryOf(byName, y.ledger, m) == EntryOf(byName, x.ledger, m);
    DeterminedTrack(byName, x.ledger, rule, table);
    DeterminedUntrack(byName, x.ledger, rule.name);
    assert y.router.kernel.rules == x.router.kernel.rules;
  }

  /** A rule tracked elsewhere leaves its old entry behind. */
  lemma MovedIsInexact(byName: ByName, left: Leftovers, x: ExecState, y: ExecState, rule: RouteRule, table: nat)
    requires Exact(byName, left, x) && Registered(byName, rule) && Installed(x, y, rule, table)
    requires rule.name in x.ledger && x.ledger[rule.name].table != table
    ensures !Exact(byName, left, y)
  {
    var was := EntryOf(byName, x.ledger, rule.name);
    assert was in Determined(byName, x.ledger) && was in x.router.kernel.rules;
    DeterminedTrack(byName, x.ledger, rule, table);
    DeterminedUntrack(byName, x.ledger, rule.name);
  }

  /** One application, whatever the kernel grants: a successful one keeps the ledger exact
      precisely when the rule's place is free, and a failed one precisely when it did not add
      a new policy rule and stop. */
  lemma ApplyKeepsExact(byName: ByName, left: Leftovers, x: ExecState, rule: RouteRule, table: nat)
    requires Exact(byName, left, x) && Registered(byName, rule) && !x.router.dryRun
    ensures var (y, r) := Apply(x, rule, table);
            Exact(byName, left, y) <==>
            if r.Ok? then PlaceIsFree(x, rule, table)
            else !(AddsHalfWay(x.router.kernel, rule) && EntryFor(rule, table) !in x.router.kernel.rules)
  {
    ApplyOutcome(x, rule, table);
    var (y, r) := Apply(x, rule, table);
    if r.Ok? {
      if rule.name !in x.ledger {
        NewlyInstalled(byName, left, x, y, rule, table);
      } else if x.ledger[rule.name].table == table {
        InstalledAgain(byName, left, x, y, rule, table);
      } else {
        MovedIsInexact(byName, left, x, y, rule, table);
      }
    }
  }

  /** The removal's policy rule goes and its route is refused. */
  predicate StopsHalfWay(k: KernelState, table: nat) {
    table <= MAX_TABLE_ID && !k.fault(k.calls, DelRuleCall) && k.fault(k.calls + 1, DelRouteCall)
  }

  /** A finished removal: the policy rule is gone, the rule is untracked, and of the routes to
      the destination in the table the one of lowest metric is gone. */
  ghost predicate Uninstalled(x: ExecState, y: ExecState, n: string, e: Entry) {
    && y.ledger == x.ledger - {n}
    && y.router.kernel.rules == x.router.kernel.rules - {e}
    && HasRouteTo(x.router.kernel.routes, e.dst, e.table)
    && y.router.kernel.routes == x.router.kernel.routes - {LowestRoute(x.router.kernel.routes, e.dst, e.table)}
  }

  /** The three ways the removal of a rule ends whose policy rule is there. */
  lemma RemoveOutcome(x: ExecState, rule: RouteRule, table: nat)
    requires HasDestination(rule) && !x.router.dryRun
    requires EntryFor(rule, table) in x.router.kernel.rules
    requires HasRouteTo(x.router.kernel.routes, EntryFor(rule, table).dst, table)
    ensures var (y, r) := Remove(x, rule, table);
            && SameMachine(x, y)
            && (r.Ok? <==> table <= MAX_TABLE_ID && !x.router.kernel.fault(x.router.kernel.calls, DelRuleCall)
                           && !StopsHalfWay(x.router.kernel, table))
            && if r.Ok? then Uninstalled(x, y, rule.name, EntryFor(rule, table))
               else if StopsHalfWay(x.router.kernel, table) then
                 && y.ledger == x.ledger && y.router.kernel.routes == x.router.kernel.routes
                 && y.router.kernel.rules == x.router.kernel.rules - {EntryFor(rule, table)}
               else SameTables(x, y)
  {
  }

  /** No route to the entry's destination in its table has a lower metric. */
  ghost predicate NoneBelow(routes: map<Entry, string>, e: Entry) {
    forall f :: f in routes && f.dst == e.dst && f.table == e.table ==> e.rank <= f.rank
  }

  /** One removal, whatever the kernel grants, keeps the ledger exact precisely when it does
      not stop half way, and fails or finds no route below the rule's own: the lowest one,
      which another rule may own, is the one taken. */
  lemma RemoveKeepsExact(byName: ByName, left: Leftovers, x: ExecState, n: string)
    requires KeyedByName(byName) && Exact(byName, left, x) && n in x.ledger && !x.router.dryRun
    ensures var (y, r) := Remove(x, byName[n], x.ledger[n].table);
            && SameMachine(x, y)
            && (Exact(byName, left, y) <==>
                && !StopsHalfWay(x.router.kernel, x.ledger[n].table)
                && (r.Err? || NoneBelow(x.router.kernel.routes, EntryOf(byName, x.ledger, n))))
  {
    var e := EntryOf(byName, x.ledger, n);
    var routes := x.router.kernel.routes;
    assert e in Determined(byName, x.ledger) && e in routes;
    RemoveOutcome(x, byName[n], x.ledger[n].table);
    var (y, r) := Remove(x, byName[n], x.ledger[n].table);
    if r.Ok? {
      UninstalledKeepsExact(byName, left, x, y, n);
    }
  }

  lemma UninstalledKeepsExact(byName: ByName, left: Leftovers, x: ExecState, y: ExecState, n: string)
    requires Exact(byName, left, x) && n in x.ledger && Uninstalled(x, y, n, EntryOf(byName, x.ledger, n))
    ensures Exact(byName, left, y) <==> NoneBelow(x.router.kernel.routes, EntryOf(byName, x.ledger, n))
  {
    var e := EntryOf(byName, x.ledger, n);
    var routes := x.router.kernel.routes;
    var low := LowestRoute(routes, e.dst, e.table);
    assert e in Determined(byName, x.ledger) && e in routes;
    assert low == e <==> NoneBelow(routes, e);
    DeterminedUntrack(byName, x.ledger, n);
    assert y.router.kernel.routes.Keys == routes.Keys - {low};
    if low == e {
      AccountsForLess(Determined(byName, x.ledger), left, x.router.kernel.rules, routes, {e});
      assert Determined(byName, y.ledger) == Determined(byName, x.ledger) - {e};
      StayingAtHome(byName, x.ledger, y.ledger, routes, y.router.kernel.routes);
    }
  }
}
