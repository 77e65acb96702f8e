/** Removing several rules in one event: a removal names no metric, so each takes the lowest
    route that is left to its destination, whoever put it there
    (src/engine/dispatcher.rs, src/router/manager.rs). */
module Draining {
  import opened Net
  import opened Kernel
  import opened Executor
  import opened Dispatcher
  import opened LedgerInvariants
  import opened Sets

  /** The entries to one destination in one table. */
  function To(entries: set<Entry>, dst: IpNetwork, table: nat): set<Entry> {
    set e | e in entries && e.dst == dst && e.table == table
  }

  predicate SameGroup(e: Entry, f: Entry) {
    e.dst == f.dst && e.table == f.table
  }

  /** Every tracked rule has its policy rule and its route. */
  ghost predicate AllInstalled(byName: ByName, x: ExecState) {
    && Tracked(byName, x.ledger)
    && Determined(byName, x.ledger) <= x.router.kernel.rules
    && Determined(byName, x.ledger) <= x.router.kernel.routes.Keys
  }

  /** What goes from a group goes from below. */
  ghost predicate LowestFirst(before: set<Entry>, after: set<Entry>) {
    forall e, f :: e in after && e in before && f in before && SameGroup(e, f) && e.rank < f.rank ==> f in after
  }

  /** From each group as many routes go as rules are untracked. */
  ghost predicate SameNumber(d: set<Entry>, d': set<Entry>, routes: set<Entry>, routes': set<Entry>) {
    forall dst, table ::
      |To(routes', dst, table)| + |To(d, dst, table)| == |To(routes, dst, table)| + |To(d', dst, table)|
  }

  /** The policy rules of what went are gone, and of others only tracked ones may be. */
  ghost predicate LosesTracked(d: set<Entry>, d': set<Entry>, rules: set<Entry>, rules': set<Entry>) {
    rules' <= rules && rules - rules' <= d && (d - d') !! rules'
  }

  /** y is x after some removals, finished or not: it untracks some rules, loses their policy
      rules and at most other tracked ones, and loses as many routes per destination and table
      as rules, from the lowest metric up. */
  ghost predicate Drained(byName: ByName, x: ExecState, y: ExecState) {
    && SameMachine(x, y)
    && Tracked(byName, x.ledger) && Tracked(byName, y.ledger)
    && (forall n :: n in y.ledger ==> n in x.ledger && y.ledger[n] == x.ledger[n])
    && Determined(byName, y.ledger) <= Determined(byName, x.ledger)
    && LosesTracked(Determined(byName, x.ledger), Determined(byName, y.ledger),
                    x.router.kernel.rules, y.router.kernel.rules)
    && y.router.kernel.routes.Keys <= x.router.kernel.routes.Keys
    && (forall e :: e in y.router.kernel.routes ==> y.router.kernel.routes[e] == x.router.kernel.routes[e])
    && LowestFirst(x.router.kernel.routes.Keys, y.router.kernel.routes.Keys)
    && SameNumber(Determined(byName, x.ledger), Determined(byName, y.ledger),
                  x.router.kernel.routes.Keys, y.router.kernel.routes.Keys)
  }

  lemma DrainedOfNothing(byName: ByName, x: ExecState)
    requires Tracked(byName, x.ledger)
    ensures Drained(byName, x, x)
  {
  }

  /** A rule still tracked finds a route to its destination. */
  lemma StillRouted(byName: ByName, x: ExecState, y: ExecState, n: string)
    requires AllInstalled(byName, x) && Drained(byName, x, y) && n in y.ledger
    ensures HasRouteTo(y.router.kernel.routes, EntryOf(byName, y.ledger, n).dst, y.ledger[n].table)
  {
    var e := EntryOf(byName, y.ledger, n);
    var d, d' := Determined(byName, x.ledger), Determined(byName, y.ledger);
    var routes, routes' := x.router.kernel.routes.Keys, y.router.kernel.routes.Keys;
    assert e in d' && e in To(d', e.dst, e.table);
    SubsetSize({e}, To(d', e.dst, e.table));
    SubsetSize(To(d, e.dst, e.table), To(routes, e.dst, e.table));
    assert |To(routes', e.dst, e.table)| + |To(d, e.dst, e.table)| ==
           |To(routes, e.dst, e.table)| + |To(d', e.dst, e.table)|;
    var f :| f in To(routes', e.dst, e.table);
    assert f in y.router.kernel.routes;
  }

  lemma OneLess(entries: set<Entry>, e: Entry, dst: IpNetwork, table: nat)
    requires e in entries
    ensures |To(entries - {e}, dst, table)| ==
            |To(entries, dst, table)| - if e.dst == dst && e.table == table then 1 else 0
  {
    if e.dst == dst && e.table == table {
      assert To(entries - {e}, dst, table) == To(entries, dst, table) - {e};
    } else {
      assert To(entries - {e}, dst, table) == To(entries, dst, table);
    }
  }

  lemma SameNumberStep(d: set<Entry>, d': set<Entry>, routes: set<Entry>, routes': set<Entry>, e: Entry, low: Entry)
    requires SameNumber(d, d', routes, routes') && e in d' && low in routes' && SameGroup(e, low)
    ensures SameNumber(d, d' - {e}, routes, routes' - {low})
  {
    forall dst, table
      ensures |To(routes' - {low}, dst, table)| + |To(d, dst, table)| ==
              |To(routes, dst, table)| + |To(d' - {e}, dst, table)|
    {
      OneLess(d', e, dst, table);
      OneLess(routes', low, dst, table);
      assert |To(routes', dst, table)| + |To(d, dst, table)| == |To(routes, dst, table)| + |To(d', dst, table)|;
    }
  }

  lemma LowestFirstStep(routes: set<Entry>, after: map<Entry, string>, low: Entry)
    requires LowestFirst(routes, after.Keys) && after.Keys <= routes && IsLowest(after, low.dst, low.table, low)
    ensures LowestFirst(routes, after.Keys - {low})
  {
  }

  lemma DrainOneMore(byName: ByName, x: ExecState, y: ExecState, z: ExecState, n: string)
    requires Drained(byName, x, y) && OneEach(byName, y.ledger) && n in y.ledger && SameMachine(y, z)
    requires Uninstalled(y, z, n, EntryOf(byName, y.ledger, n))
    ensures Drained(byName, x, z)
  {
    var e := EntryOf(byName, y.ledger, n);
    var low := LowestRoute(y.router.kernel.routes, e.dst, e.table);
    var d, d' := Determined(byName, x.ledger), Determined(byName, y.ledger);
    var routes, routes' := x.router.kernel.routes.Keys, y.router.kernel.routes.Keys;
    DeterminedUntrack(byName, y.ledger, n);
    assert Determined(byName, z.ledger) == d' - {e};
    assert z.router.kernel.routes.Keys == routes' - {low};
    SameNumberStep(d, d', routes, routes', e, low);
    LowestFirstStep(routes, y.router.kernel.routes, low);
  }

  /** From now on no deletion is refused. */
  ghost predicate DeletionsSucceed(k: KernelState) {
    forall n :: k.calls <= n ==> !k.fault(n, DelRuleCall) && !k.fault(n, DelRouteCall)
  }

  /** From now on no removal stops between its policy rule and its route. */
  ghost predicate NoHalfRemovals(k: KernelState) {
    forall n :: k.calls <= n ==> !k.fault(n, DelRouteCall)
  }

  /** None of these removals stops half way. */
  ghost predicate RemovesWhole(x: ExecState, byName: ByName, tables: Ledger, order: seq<string>)
    decreases |order|
  {
    order == [] ||
    (var n := order[0];
     if n in byName && n in tables then
       && !StopsHalfWay(x.router.kernel, tables[n].table)
       && RemovesWhole(Remove(x, byName[n], tables[n].table).0, byName, tables, order[1..])
     else RemovesWhole(x, byName, tables, order[1..]))
  }

  /** The victims still to remove are tracked as they were when the removal began, each with its
      policy rule. */
  ghost predicate StillTracked(byName: ByName, x: ExecState, tables: Ledger, order: seq<string>) {
    && Tracked(byName, x.ledger) && OneEach(byName, x.ledger)
    && (forall n :: n in order ==> n in x.ledger && n in tables && x.ledger[n] == tables[n]
                                   && EntryOf(byName, x.ledger, n) in x.router.kernel.rules)
    && forall i, j :: 0 <= i < j < |order| ==> order[i] != order[j]
  }

  /** What removing the named victims makes of the ledger. */
  ghost predicate OnlyUntracks(x: ExecState, y: ExecState, order: seq<string>) {
    && (forall n :: n in y.ledger ==> n in x.ledger && y.ledger[n] == x.ledger[n])
    && (forall n :: n in x.ledger && n !in order ==> n in y.ledger)
    && (DeletionsSucceed(x.router.kernel) ==>
          forall n :: n in order && n in x.ledger ==> (n in y.ledger <==> MAX_TABLE_ID < x.ledger[n].table))
  }

  /** One removal, seen from the state the event began in. */
  lemma DrainStep(byName: ByName, x: ExecState, y: ExecState, n: string)
    requires KeyedByName(byName) && AllInstalled(byName, x) && Drained(byName, x, y) && n in y.ledger
    requires OneEach(byName, y.ledger) && EntryOf(byName, y.ledger, n) in y.router.kernel.rules && !y.router.dryRun
    ensures var z := Remove(y, byName[n], y.ledger[n].table).0;
            && Drained(byName, x, z) && SameMachine(y, z) && OnlyUntracks(y, z, [n])
            && y.router.kernel.rules - {EntryOf(byName, y.ledger, n)} <= z.router.kernel.rules
            && (if StopsHalfWay(y.router.kernel, y.ledger[n].table) then
                  n in z.ledger && EntryOf(byName, y.ledger, n) !in z.router.kernel.rules
                else n in z.ledger ==> z.router.kernel.rules == y.router.kernel.rules)
  {
    StillRouted(byName, x, y, n);
    RemoveOutcome(y, byName[n], y.ledger[n].table);
    var (z, r) := Remove(y, byName[n], y.ledger[n].table);
    if r.Ok? {
      DrainOneMore(byName, x, y, z, n);
    } else if StopsHalfWay(y.router.kernel, y.ledger[n].table) {
      assert EntryOf(byName, y.ledger, n) in Determined(byName, y.ledger);
    }
  }

  lemma OnlyUntracksStep(x: ExecState, y: ExecState, z: ExecState, order: seq<string>)
    requires order != [] && order[0] !in order[1..] && SameMachine(x, y)
    requires OnlyUntracks(x, y, [order[0]]) && OnlyUntracks(y, z, order[1..])
    ensures OnlyUntracks(x, z, order)
  {
    assert order == [order[0]] + order[1..];
  }

  lemma StillTrackedStep(byName: ByName, y: ExecState, z: ExecState, tables: Ledger, order: seq<string>)
    requires order != [] && StillTracked(byName, y, tables, order) && OnlyUntracks(y, z, [order[0]])
    requires y.router.kernel.rules - {EntryOf(byName, y.ledger, order[0])} <= z.router.kernel.rules
    ensures StillTracked(byName, z, tables, order[1..]) && order[0] !in order[1..]
  {
    assert order[0] !in order[1..] && forall m :: m in order[1..] ==> m in order && m != order[0];
    forall m, n | m in z.ledger && n in z.ledger && m != n
      ensures EntryOf(byName, z.ledger, m) != EntryOf(byName, z.ledger, n)
    {
      assert EntryOf(byName, z.ledger, m) == EntryOf(byName, y.ledger, m);
    }
  }

  lemma {:induction false} DrainAll(byName: ByName, x: ExecState, y: ExecState, tables: Ledger, order: seq<string>)
    requires KeyedByName(byName) && AllInstalled(byName, x) && Drained(byName, x, y)
    requires StillTracked(byName, y, tables, order) && !y.router.dryRun
    ensures var z := RemoveAll(y, byName, tables, order);
            Drained(byName, x, z) && SameMachine(y, z) && OnlyUntracks(y, z, order)
    decreases |order|
  {
    if order != [] {
      var n := order[0];
      var next := Remove(y, byName[n], tables[n].table).0;
      DrainStep(byName, x, y, n);
      StillTrackedStep(byName, y, next, tables, order);
      DrainAll(byName, x, next, tables, order[1..]);
      OnlyUntracksStep(y, next, RemoveAll(next, byName, tables, order[1..]), order);
    }
  }

  lemma {:induction false} RemovalsAddNoRules(x: ExecState, byName: ByName, tables: Ledger, order: seq<string>)
    ensures RemoveAll(x, byName, tables, order).router.kernel.rules <= x.router.kernel.rules
    decreases |order|
  {
    if order != [] {
      var n := order[0];
      RemovalsAddNoRules(
        if n in byName && n in tables then Remove(x, byName[n], tables[n].table).0 else x, byName, tables, order[1..]);
    }
  }

  /** A rule whose removal stops half way is tracked without its policy rule from then on. */
  lemma HalfRemovalIsLasting(byName: ByName, x: ExecState, y: ExecState, tables: Ledger, order: seq<string>)
    requires KeyedByName(byName) && AllInstalled(byName, x) && Drained(byName, x, y) && order != []
    requires StillTracked(byName, y, tables, order) && !y.router.dryRun
    requires StopsHalfWay(y.router.kernel, tables[order[0]].table)
    ensures var z := RemoveAll(y, byName, tables, order);
            Tracked(byName, z.ledger) && !(Determined(byName, z.ledger) <= z.router.kernel.rules)
  {
    var n := order[0];
    var next := Remove(y, byName[n], tables[n].table).0;
    DrainStep(byName, x, y, n);
    StillTrackedStep(byName, y, next, tables, order);
    DrainAll(byName, x, next, tables, order[1..]);
    RemovalsAddNoRules(next, byName, tables, order[1..]);
    LostRuleStaysLost(byName, next, RemoveAll(next, byName, tables, order[1..]), order[1..], n);
  }

  /** The tracked rules keep their policy rules exactly when no removal stops half way. */
  lemma {:induction false} WholeRemovalsKeepRules(byName: ByName, x: ExecState, y: ExecState, tables: Ledger,
      order: seq<string>)
    requires KeyedByName(byName) && AllInstalled(byName, x) && Drained(byName, x, y)
    requires StillTracked(byName, y, tables, order) && !y.router.dryRun
    requires Determined(byName, y.ledger) <= y.router.kernel.rules
    ensures var z := RemoveAll(y, byName, tables, order);
            Tracked(byName, z.ledger) &&
            (Determined(byName, z.ledger) <= z.router.kernel.rules <==> RemovesWhole(y, byName, tables, order))
    decreases |order|
  {
    if order != [] {
      var n := order[0];
      if StopsHalfWay(y.router.kernel, tables[n].table) {
        HalfRemovalIsLasting(byName, x, y, tables, order);
      } else {
        var next := Remove(y, byName[n], tables[n].table).0;
        DrainStep(byName, x, y, n);
        StillTrackedStep(byName, y, next, tables, order);
        WholeStepKeepsRules(byName, y, next, n);
        WholeRemovalsKeepRules(byName, x, next, tables, order[1..]);
      }
    }
  }

  lemma LostRuleStaysLost(byName: ByName, y: ExecState, z: ExecState, order: seq<string>, n: string)
    requires Tracked(byName, y.ledger) && Tracked(byName, z.ledger) && OnlyUntracks(y, z, order)
    requires n in y.ledger && n !in order && EntryOf(byName, y.ledger, n) !in y.router.kernel.rules
    requires z.router.kernel.rules <= y.router.kernel.rules
    ensures !(Determined(byName, z.ledger) <= z.router.kernel.rules)
  {
    assert EntryOf(byName, z.ledger, n) in Determined(byName, z.ledger);
  }

  lemma WholeStepKeepsRules(byName: ByName, y: ExecState, z: ExecState, n: string)
    requires Tracked(byName, y.ledger) && Tracked(byName, z.ledger) && OneEach(byName, y.ledger) && n in y.ledger
    requires OnlyUntracks(y, z, [n]) && Determined(byName, y.ledger) <= y.router.kernel.rules
    requires y.router.kernel.rules - {EntryOf(byName, y.ledger, n)} <= z.router.kernel.rules
    requires n in z.ledger ==> z.router.kernel.rules == y.router.kernel.rules
    ensures Determined(byName, z.ledger) <= z.router.kernel.rules
  {
    forall m | m in z.ledger ensures EntryOf(byName, z.ledger, m) in z.router.kernel.rules {
      assert EntryOf(byName, z.ledger, m) == EntryOf(byName, y.ledger, m);
      assert EntryOf(byName, y.ledger, m) in Determined(byName, y.ledger);
    }
  }

  // ---------------------------------------------------------------------------------------
  // What several removals keep
  // ---------------------------------------------------------------------------------------

  /** Every route below an entry that went, to its destination in its table, went as well. */
  ghost predicate FromBelow(byName: ByName, x: ExecState, y: ExecState)
    requires Tracked(byName, x.ledger) && Tracked(byName, y.ledger)
  {
    GoesFromBelow(Determined(byName, x.ledger) - Determined(byName, y.ledger), x.router.kernel.routes.Keys)
  }

  ghost predicate GoesFromBelow(gone: set<Entry>, routes: set<Entry>) {
    forall e, f :: e in gone && f in routes && SameGroup(e, f) && f.rank < e.rank ==> f in gone
  }

  predicate LowerSet(group: set<Entry>, part: set<Entry>) {
    part <= group && forall e, f :: e in part && f in group && f.rank < e.rank ==> f in part
  }

  /** Of one group, two parts of one size that both lie at the bottom are the same. */
  lemma LowerSetsAgree(group: set<Entry>, a: set<Entry>, b: set<Entry>)
    requires forall e, f :: e in group && f in group && e.rank == f.rank ==> e == f
    requires LowerSet(group, a) && LowerSet(group, b) && |a| == |b|
    ensures a == b
  {
    if e :| e in a && e !in b {
      forall f | f in b ensures f in a {
        assert f.rank != e.rank && !(e.rank < f.rank);
      }
      SameSizeSubset(b, a);
    } else {
      SameSizeSubset(a, b);
    }
  }

  lemma ToDifference(whole: set<Entry>, part: set<Entry>, dst: IpNetwork, table: nat)
    requires part <= whole
    ensures |To(whole - part, dst, table)| == |To(whole, dst, table)| - |To(part, dst, table)|
  {
    assert To(whole - part, dst, table) == To(whole, dst, table) - To(part, dst, table);
    PartSize(To(whole, dst, table), To(part, dst, table));
  }

  lemma WentFromTheBottom(routes: set<Entry>, routes': set<Entry>, dst: IpNetwork, table: nat)
    requires routes' <= routes && LowestFirst(routes, routes')
    ensures LowerSet(To(routes, dst, table), To(routes - routes', dst, table))
  {
  }

  /** In each group the routes that went are the entries that went. */
  lemma GroupGoesTogether(d: set<Entry>, d': set<Entry>, routes: set<Entry>, routes': set<Entry>,
      dst: IpNetwork, table: nat)
    requires d' <= d <= routes && routes' <= routes
    requires LowestFirst(routes, routes') && SameNumber(d, d', routes, routes') && GoesFromBelow(d - d', routes)
    ensures To(routes - routes', dst, table) == To(d - d', dst, table)
  {
    ToDifference(routes, routes', dst, table);
    ToDifference(d, d', dst, table);
    assert |To(routes', dst, table)| + |To(d, dst, table)| == |To(routes, dst, table)| + |To(d', dst, table)|;
    WentFromTheBottom(routes, routes', dst, table);
    assert LowerSet(To(routes, dst, table), To(d - d', dst, table));
    LowerSetsAgree(To(routes, dst, table), To(routes - routes', dst, table), To(d - d', dst, table));
  }

  lemma PartSize(whole: set<Entry>, part: set<Entry>)
    requires part <= whole
    ensures |whole - part| == |whole| - |part|
  {
    assert whole == part + (whole - part);
  }

  lemma RoutesGoTogether(byName: ByName, x: ExecState, y: ExecState)
    requires AllInstalled(byName, x) && Drained(byName, x, y) && FromBelow(byName, x, y)
    ensures y.router.kernel.routes ==
            x.router.kernel.routes - (Determined(byName, x.ledger) - Determined(byName, y.ledger))
  {
    var gone := Determined(byName, x.ledger) - Determined(byName, y.ledger);
    forall e ensures e in x.router.kernel.routes.Keys - y.router.kernel.routes.Keys <==> e in gone {
      GroupGoesTogether(Determined(byName, x.ledger), Determined(byName, y.ledger),
                        x.router.kernel.routes.Keys, y.router.kernel.routes.Keys, e.dst, e.table);
      assert e in x.router.kernel.routes.Keys - y.router.kernel.routes.Keys <==>
             e in To(x.router.kernel.routes.Keys - y.router.kernel.routes.Keys, e.dst, e.table);
      assert e in gone <==> e in To(gone, e.dst, e.table);
    }
  }

  lemma ExactIsInstalled(byName: ByName, left: Leftovers, x: ExecState)
    requires Exact(byName, left, x)
    ensures AllInstalled(byName, x)
  {
  }

  lemma FewerStillOneEach(byName: ByName, x: ExecState, y: ExecState)
    requires Drained(byName, x, y) && OneEach(byName, x.ledger)
    ensures OneEach(byName, y.ledger)
  {
    assert forall n :: n in y.ledger ==> EntryOf(byName, y.ledger, n) == EntryOf(byName, x.ledger, n);
  }

  /** Several removals, finished or not, keep the ledger exact precisely when every tracked rule
      keeps its policy rule and nothing stays below what went: no other rule's route and no
      leftover. */
  lemma DrainingKeepsExact(byName: ByName, left: Leftovers, x: ExecState, y: ExecState)
    requires Exact(byName, left, x) && Drained(byName, x, y)
    ensures Exact(byName, left, y) <==>
            Determined(byName, y.ledger) <= y.router.kernel.rules && FromBelow(byName, x, y)
  {
    var d, d' := Determined(byName, x.ledger), Determined(byName, y.ledger);
    FewerStillOneEach(byName, x, y);
    if d' <= y.router.kernel.rules && FromBelow(byName, x, y) {
      RoutesGoTogether(byName, x, y);
      AccountsForLess(d, left, x.router.kernel.rules, x.router.kernel.routes, d - d');
      assert y.router.kernel.rules == x.router.kernel.rules - (d - d');
      assert d - (d - d') == d';
      StayingAtHome(byName, x.ledger, y.ledger, x.router.kernel.routes, y.router.kernel.routes);
    }
    if Exact(byName, left, y) {
      AccountedGoesFromBelow(d, d', left, x.router.kernel.routes.Keys, y.router.kernel.routes.Keys);
    }
  }

  lemma AccountedGoesFromBelow(d: set<Entry>, d': set<Entry>, left: Leftovers, routes: set<Entry>, routes': set<Entry>)
    requires d !! left.routes.Keys && routes == d + left.routes.Keys && routes' == d' + left.routes.Keys && d' <= d
    requires LowestFirst(routes, routes')
    ensures GoesFromBelow(d - d', routes)
  {
  }

  /** A ledger without the entries via an interface, in tables a removal can name. */
  function LedgerWithout(ledger: Ledger, interface: string): Ledger {
    map n | n in ledger && (ledger[n].interface != interface || MAX_TABLE_ID < ledger[n].table) :: ledger[n]
  }

  /** The entries that such a removal should take. */
  ghost function EntriesVia(byName: ByName, ledger: Ledger, interface: string): set<Entry>
    requires Tracked(byName, ledger)
  {
    Determined(byName, ledger) - Determined(byName, LedgerWithout(ledger, interface))
  }

  lemma VictimsAreGone(x: ExecState, y: ExecState, interface: string, order: seq<string>)
    requires OnlyUntracks(x, y, order) && ListsVictims(x.ledger, interface, order)
    requires DeletionsSucceed(x.router.kernel)
    ensures y.ledger == LedgerWithout(x.ledger, interface)
  {
  }

  /** The routes to an entry's destination in its table that lie below it. */
  function Below(routes: set<Entry>, e: Entry): set<Entry> {
    set f | f in To(routes, e.dst, e.table) && f.rank < e.rank
  }

  /** Below each rule still tracked lie enough routes for all the rules that went from its
      destination and table. */
  ghost predicate LeavesRoom(byName: ByName, x: ExecState, y: ExecState) {
    && Tracked(byName, x.ledger) && Tracked(byName, y.ledger)
    && forall e :: e in Determined(byName, y.ledger) ==>
      |To(Determined(byName, x.ledger), e.dst, e.table)| - |To(Determined(byName, y.ledger), e.dst, e.table)|
        <= |Below(x.router.kernel.routes.Keys, e)|
  }

  lemma RouteStaysIffRoom(d: set<Entry>, d': set<Entry>, routes: set<Entry>, routes': set<Entry>, e: Entry)
    requires routes' <= routes && LowestFirst(routes, routes') && SameNumber(d, d', routes, routes') && e in routes
    ensures e in routes' <==>
            |To(d, e.dst, e.table)| - |To(d', e.dst, e.table)| <= |Below(routes, e)|
  {
    var below := Below(routes, e);
    var went := To(routes, e.dst, e.table) - To(routes', e.dst, e.table);
    PartSize(To(routes, e.dst, e.table), To(routes', e.dst, e.table));
    assert |To(routes', e.dst, e.table)| + |To(d, e.dst, e.table)| ==
           |To(routes, e.dst, e.table)| + |To(d', e.dst, e.table)|;
    if e in routes' {
      assert went <= below;
      SubsetSize(went, below);
    } else {
      assert below + {e} <= went;
      SubsetSize(below + {e}, went);
    }
  }

  /** Several removals, finished or not, leave every tracked rule installed precisely when every
      one keeps its policy rule and they leave room. */
  lemma DrainingKeepsInstalled(byName: ByName, x: ExecState, y: ExecState)
    requires AllInstalled(byName, x) && Drained(byName, x, y)
    ensures AllInstalled(byName, y) <==>
            Determined(byName, y.ledger) <= y.router.kernel.rules && LeavesRoom(byName, x, y)
  {
    var d, d' := Determined(byName, x.ledger), Determined(byName, y.ledger);
    forall e | e in d'
      ensures e in y.router.kernel.routes <==>
              |To(d, e.dst, e.table)| - |To(d', e.dst, e.table)| <= |Below(x.router.kernel.routes.Keys, e)|
    {
      RouteStaysIffRoom(d, d', x.router.kernel.routes.Keys, y.router.kernel.routes.Keys, e);
    }
  }
}
