/** Counting the attempts to add and to remove rules, and what a list of rules comes to by them
    (src/engine/dispatcher.rs, src/engine/executor.rs). */
module Tallies {
  import opened Config
  import opened Kernel
  import opened Rules
  import opened Executor
  import opened RuleNames
  import opened Reactions
  import opened Sets

  // ---------------------------------------------------------------------------------------
  // Reading the requests
  // ---------------------------------------------------------------------------------------

  type Fault = (nat, Call) -> bool

  /** How many attempts went through, and how many did not. */
  datatype Tally = Tally(granted: nat, refused: nat)

  function Plus(a: Tally, b: Tally): Tally {
    Tally(a.granted + b.granted, a.refused + b.refused)
  }

  /** The pair of requests from number i on is granted. */
  predicate PairGranted(fault: Fault, i: nat, first: Call, second: Call) {
    !fault(i, first) && !fault(i + 1, second)
  }

  /** The number of the first request after it. */
  function AfterPair(fault: Fault, i: nat, first: Call): nat {
    if fault(i, first) then i + 1 else i + 2
  }

  /** What became of the attempts whose requests have the numbers from .. until - 1. An attempt is
      a pair of requests, the second made only if the first is granted. */
  function TallyOf(fault: Fault, from: nat, until: nat, first: Call, second: Call): Tally
    decreases if from < until then until - from else 0
  {
    if until <= from then Tally(0, 0)
    else
      Plus(if PairGranted(fault, from, first, second) then Tally(1, 0) else Tally(0, 1),
           TallyOf(fault, AfterPair(fault, from, first), until, first, second))
  }

  /** The attempts to add, and to remove, between two states of one kernel. */
  function AddTally(k: KernelState, k': KernelState): Tally {
    TallyOf(k.fault, k.calls, k'.calls, AddRuleCall, AddRouteCall)
  }

  function RemoveTally(k: KernelState, k': KernelState): Tally {
    TallyOf(k.fault, k.calls, k'.calls, DelRuleCall, DelRouteCall)
  }

  /** The number of the request after n attempts, and how many of them are granted. */
  function AfterAttempts(fault: Fault, from: nat, n: nat, first: Call): nat
    decreases n
  {
    if n == 0 then from else AfterAttempts(fault, AfterPair(fault, from, first), n - 1, first)
  }

  function GrantedOf(fault: Fault, from: nat, n: nat, first: Call, second: Call): nat
    decreases n
  {
    if n == 0 then 0
    else
      (if PairGranted(fault, from, first, second) then 1 else 0)
      + GrantedOf(fault, AfterPair(fault, from, first), n - 1, first, second)
  }

  /** Between k and k' lie whole attempts, of this tally. */
  ghost predicate Counted(k: KernelState, k': KernelState, first: Call, second: Call, t: Tally) {
    && k'.fault == k.fault
    && k'.calls == AfterAttempts(k.fault, k.calls, t.granted + t.refused, first)
    && t.granted == GrantedOf(k.fault, k.calls, t.granted + t.refused, first, second)
  }

  lemma {:induction false} AttemptsGoOn(fault: Fault, from: nat, n: nat, first: Call)
    ensures from + n <= AfterAttempts(fault, from, n, first)
    decreases n
  {
    if n > 0 {
      AttemptsGoOn(fault, AfterPair(fault, from, first), n - 1, first);
    }
  }

  lemma TallyStep(fault: Fault, from: nat, until: nat, first: Call, second: Call)
    requires from < until
    ensures TallyOf(fault, from, until, first, second) ==
            Plus(if PairGranted(fault, from, first, second) then Tally(1, 0) else Tally(0, 1),
                 TallyOf(fault, AfterPair(fault, from, first), until, first, second))
  {
  }

  lemma {:induction false} AttemptsAreTallied(fault: Fault, from: nat, until: nat, n: nat, g: nat, first: Call,
      second: Call)
    requires until == AfterAttempts(fault, from, n, first) && g == GrantedOf(fault, from, n, first, second)
    ensures g <= n && TallyOf(fault, from, until, first, second) == Tally(g, n - g)
    decreases n
  {
    if n > 0 {
      var next := AfterPair(fault, from, first);
      AttemptsGoOn(fault, from, n, first);
      AttemptsAreTallied(fault, next, until, n - 1, GrantedOf(fault, next, n - 1, first, second), first, second);
      TallyStep(fault, from, until, first, second);
    }
  }

  lemma CountedIsTally(k: KernelState, k': KernelState, first: Call, second: Call, t: Tally)
    requires Counted(k, k', first, second, t)
    ensures TallyOf(k.fault, k.calls, k'.calls, first, second) == t
  {
    AttemptsAreTallied(k.fault, k.calls, k'.calls, t.granted + t.refused, t.granted, first, second);
  }

  lemma {:induction false} AttemptsAddUp(fault: Fault, from: nat, m: nat, n: nat, first: Call, second: Call)
    ensures var mid := AfterAttempts(fault, from, m, first);
            && AfterAttempts(fault, from, m + n, first) == AfterAttempts(fault, mid, n, first)
            && GrantedOf(fault, from, m + n, first, second) ==
               GrantedOf(fault, from, m, first, second) + GrantedOf(fault, mid, n, first, second)
    decreases m
  {
    if m > 0 {
      AttemptsAddUp(fault, AfterPair(fault, from, first), m - 1, n, first, second);
    }
  }

  lemma CountedThen(k: KernelState, k1: KernelState, k2: KernelState, first: Call, second: Call, a: Tally, b: Tally)
    requires Counted(k, k1, first, second, a) && Counted(k1, k2, first, second, b)
    ensures Counted(k, k2, first, second, Plus(a, b))
  {
    AttemptsAddUp(k.fault, k.calls, a.granted + a.refused, b.granted + b.refused, first, second);
  }

  lemma CountedPair(k: KernelState, k': KernelState, first: Call, second: Call)
    requires k'.fault == k.fault && k'.calls == AfterPair(k.fault, k.calls, first)
    ensures var one := if PairGranted(k.fault, k.calls, first, second) then Tally(1, 0) else Tally(0, 1);
            Counted(k, k', first, second, one)
  {
    assert AfterAttempts(k.fault, k.calls, 1, first) == AfterAttempts(k.fault, k'.calls, 0, first);
    assert GrantedOf(k.fault, k'.calls, 0, first, second) == 0;
  }

  // ---------------------------------------------------------------------------------------
  // Applications
  // ---------------------------------------------------------------------------------------

  /** Whole attempts to add lie between the two. */
  ghost predicate AddedBy(x: ExecState, y: ExecState, t: Tally) {
    && Counted(x.router.kernel, y.router.kernel, AddRuleCall, AddRouteCall, t)
    && x.router.kernel.rules <= y.router.kernel.rules
    && x.router.kernel.routes.Keys <= y.router.kernel.routes.Keys
    && !y.router.dryRun
  }

  lemma AddedThen(x: ExecState, y: ExecState, z: ExecState, a: Tally, b: Tally)
    requires AddedBy(x, y, a) && AddedBy(y, z, b)
    ensures AddedBy(x, z, Plus(a, b))
  {
    CountedThen(x.router.kernel, y.router.kernel, z.router.kernel, AddRuleCall, AddRouteCall, a, b);
  }

  /** The rule is tracked in this table, and has its policy rule and its route. */
  predicate Landed(x: ExecState, rule: RouteRule, table: nat)
    requires HasDestination(rule)
  {
    rule.name in x.ledger && x.ledger[rule.name].table == table && InKernel(x.router.kernel, rule, table)
  }

  /** The names of installable rules that are not tracked. */
  ghost function MissingNames(rules: seq<RouteRule>, ledger: Ledger): set<string> {
    set r | r in rules && Installable(r) && r.name !in ledger :: r.name
  }

  /** The names tracked only afterwards. */
  function NewNames(ledger: Ledger, ledger': Ledger): set<string> {
    ledger'.Keys - ledger.Keys
  }

  /** Some rule of the list is tracked under the name, in this table and for its own interface,
      and is in the kernel. */
  ghost predicate SomeLanded(x: ExecState, rules: seq<RouteRule>, name: string, table: nat) {
    exists r :: r in rules && r.name == name && Installable(r) && Landed(x, r, table)
                && x.ledger[name].interface == r.via
  }

  /** What the default rules come to, whatever is refused: as many names more as attempts were
      granted, each with a rule of it in the kernel, none that was tracked touched, and no more
      names missing than attempts refused. With distinct names exactly as many. */
  ghost predicate DefaultsTried(x: ExecState, y: ExecState, rules: seq<RouteRule>, table: nat, t: Tally) {
    && |NewNames(x.ledger, y.ledger)| == t.granted
    && (forall n :: n in x.ledger ==> n in y.ledger && y.ledger[n] == x.ledger[n])
    && (forall n :: n in NewNames(x.ledger, y.ledger) ==> SomeLanded(y, rules, n, table))
    && |MissingNames(rules, y.ledger)| <= t.refused
    && (DistinctNames(rules) ==> |MissingNames(rules, y.ledger)| == t.refused)
  }

  lemma MissingStep(rules: seq<RouteRule>, ledger: Ledger)
    requires rules != []
    ensures var rest := MissingNames(rules[1..], ledger);
            && MissingNames(rules, ledger) ==
               (if Installable(rules[0]) && rules[0].name !in ledger then rest + {rules[0].name} else rest)
            && (DistinctNames(rules) ==>
                  && rules[0].name !in rest && DistinctNames(rules[1..])
                  && forall r :: r in rules[1..] ==> r.name != rules[0].name)
  {
    assert rules == [rules[0]] + rules[1..];
  }

  lemma LandedLater(y: ExecState, rules: seq<RouteRule>, ledger: Ledger, table: nat)
    requires rules != [] && forall n :: n in NewNames(ledger, y.ledger) ==> SomeLanded(y, rules[1..], n, table)
    ensures forall n :: n in NewNames(ledger, y.ledger) ==> SomeLanded(y, rules, n, table)
  {
    assert rules == [rules[0]] + rules[1..];
    forall n | n in NewNames(ledger, y.ledger) ensures SomeLanded(y, rules, n, table) {
      assert SomeLanded(y, rules[1..], n, table);
    }
  }

  lemma SkippedDefault(x: ExecState, y: ExecState, rules: seq<RouteRule>, table: nat, t: Tally)
    requires rules != [] && DefaultsTried(x, y, rules[1..], table, t)
    requires rules[0].name in x.ledger || !Installable(rules[0])
    ensures DefaultsTried(x, y, rules, table, t)
  {
    MissingStep(rules, y.ledger);
    LandedLater(y, rules, x.ledger, table);
  }

  lemma OneMoreNew(ledger: Ledger, next: Ledger, after: Ledger, n: string)
    requires n !in ledger && next.Keys == ledger.Keys + {n} && next.Keys <= after.Keys
    ensures NewNames(ledger, after) == NewNames(next, after) + {n}
    ensures |NewNames(ledger, after)| == |NewNames(next, after)| + 1
  {
    assert NewNames(ledger, after) == NewNames(next, after) + {n};
  }

  /** The first rule is granted, */
  lemma GrantedDefault(x: ExecState, next: ExecState, y: ExecState, rules: seq<RouteRule>, table: nat, rest: Tally)
    requires rules != [] && rules[0].name !in x.ledger && Installable(rules[0])
    requires next.ledger == Track(x.ledger, rules[0], table) && Landed(next, rules[0], table)
    requires AddedBy(next, y, rest) && DefaultsTried(next, y, rules[1..], table, rest)
    ensures DefaultsTried(x, y, rules, table, Plus(Tally(1, 0), rest))
  {
    MissingStep(rules, y.ledger);
    LandedLater(y, rules, next.ledger, table);
    OneMoreNew(x.ledger, next.ledger, y.ledger, rules[0].name);
    assert Landed(y, rules[0], table) && SomeLanded(y, rules, rules[0].name, table);
  }

  /** or refused. */
  lemma RefusedDefault(x: ExecState, next: ExecState, y: ExecState, rules: seq<RouteRule>, table: nat, rest: Tally)
    requires rules != [] && rules[0].name !in x.ledger && Installable(rules[0]) && next.ledger == x.ledger
    requires DefaultsTried(next, y, rules[1..], table, rest)
    ensures DefaultsTried(x, y, rules, table, Plus(Tally(0, 1), rest))
  {
    MissingStep(rules, y.ledger);
    LandedLater(y, rules, x.ledger, table);
    assert rules[0].name in y.ledger ==> SomeLanded(y, rules[1..], rules[0].name, table);
  }

  /** How many of the rules can be installed. */
  function HowMany(rules: seq<RouteRule>): nat {
    if rules == [] then 0 else (if Installable(rules[0]) then 1 else 0) + HowMany(rules[1..])
  }

  /** The installable rules that have not landed in this table. */
  ghost function NotLanded(x: ExecState, rules: seq<RouteRule>, table: nat): set<RouteRule> {
    set r | r in rules && Installable(r) && !Landed(x, r, table)
  }

  /** Rules tracked in this table stay so. */
  ghost predicate StaysIn(x: ExecState, y: ExecState, table: nat) {
    forall n :: n in x.ledger && x.ledger[n].table == table ==> n in y.ledger && y.ledger[n].table == table
  }

  /** What a profile's rules come to, whatever is refused: one attempt for each that can be
      installed, as many of them granted as the count returned, and no more rules that have not
      landed than attempts refused. */
  ghost predicate ProfileTried(x: ExecState, y: ExecState, rules: seq<RouteRule>, table: nat, count: nat, t: Tally) {
    && t.granted == count && t.granted + t.refused == HowMany(rules)
    && |NotLanded(y, rules, table)| <= t.refused && StaysIn(x, y, table)
  }

  lemma NotLandedStep(x: ExecState, rules: seq<RouteRule>, table: nat)
    requires rules != []
    ensures NotLanded(x, rules, table) ==
            NotLanded(x, rules[1..], table)
            + if Installable(rules[0]) && !Landed(x, rules[0], table) then {rules[0]} else {}
  {
    assert rules == [rules[0]] + rules[1..];
  }

  lemma ProfileStep(x: ExecState, next: ExecState, y: ExecState, rules: seq<RouteRule>, table: nat, granted: bool,
      count: nat, rest: Tally)
    requires rules != [] && AddedBy(next, y, rest) && ProfileTried(next, y, rules[1..], table, count, rest)
    requires if granted then
               && Installable(rules[0])
               && next.ledger == Track(x.ledger, rules[0], table) && Landed(next, rules[0], table)
             else next.ledger == x.ledger
    ensures var one := if !Installable(rules[0]) then Tally(0, 0) else if granted then Tally(1, 0) else Tally(0, 1);
            ProfileTried(x, y, rules, table, (if granted then 1 else 0) + count, Plus(one, rest))
  {
    NotLandedStep(y, rules, table);
    if granted {
      assert Landed(y, rules[0], table);
    }
  }

  /** m, q times. */
  function Times(m: nat, q: nat): nat {
    if q == 0 then 0 else Times(m, q - 1) + m
  }

  lemma {:induction false} TimesIsProduct(m: nat, q: nat)
    ensures Times(m, q) == m * q
  {
    if q > 0 {
      TimesIsProduct(m, q - 1);
    }
  }

  /** As many names are new as attempts were granted, and each that is missing was refused once
      for every interface that qualifies. */
  ghost predicate StartupTried(x: ExecState, y: ExecState, rules: seq<RouteRule>, qualifying: nat, t: Tally) {
    && |NewNames(x.ledger, y.ledger)| == t.granted
    && (forall n :: n in x.ledger ==> n in y.ledger && y.ledger[n] == x.ledger[n])
    && Times(|MissingNames(rules, y.ledger)|, qualifying) <= t.refused
  }

  lemma NewNamesAddUp(a: Ledger, b: Ledger, c: Ledger)
    requires a.Keys <= b.Keys <= c.Keys
    ensures |NewNames(a, c)| == |NewNames(a, b)| + |NewNames(b, c)|
  {
    assert NewNames(a, c) == NewNames(a, b) + NewNames(b, c);
  }

  lemma FewerMissing(rules: seq<RouteRule>, ledger: Ledger, ledger': Ledger)
    requires ledger.Keys <= ledger'.Keys
    ensures |MissingNames(rules, ledger')| <= |MissingNames(rules, ledger)|
  {
    SubsetSize(MissingNames(rules, ledger'), MissingNames(rules, ledger));
  }

  lemma OnceMore(m: nat, q: nat, more: nat, a: nat, b: nat)
    requires more == q + 1 && m <= a && Times(m, q) <= b
    ensures Times(m, more) <= a + b
  {
  }

  lemma StartupStep(x: ExecState, next: ExecState, y: ExecState, rules: seq<RouteRule>, table: nat, a: Tally,
      qualifying: nat, more: nat, b: Tally)
    requires DefaultsTried(x, next, rules, table, a) && StartupTried(next, y, rules, qualifying, b)
    requires more == qualifying + 1
    ensures StartupTried(x, y, rules, more, Plus(a, b))
  {
    NewNamesAddUp(x.ledger, next.ledger, y.ledger);
    FewerMissing(rules, next.ledger, y.ledger);
    OnceMore(|MissingNames(rules, y.ledger)|, qualifying, more, a.refused, b.refused);
  }

  // ---------------------------------------------------------------------------------------
  // Removals
  // ---------------------------------------------------------------------------------------

  /** The named rules that are still tracked though a removal can name their tables. */
  ghost function StillThere(tables: Ledger, order: seq<string>, ledger: Ledger): set<string> {
    set n | n in order && n in tables && tables[n].table <= 255 && n in ledger
  }

  /** What the removals come to, whatever is refused: as many names gone as attempts granted, and
      as many still there, of those a removal can name, as attempts refused. */
  ghost predicate RemovalsTried(x: ExecState, y: ExecState, tables: Ledger, order: seq<string>, t: Tally) {
    && |NewNames(y.ledger, x.ledger)| == t.granted
    && |StillThere(tables, order, y.ledger)| == t.refused
    && (forall n :: n in y.ledger ==> n in x.ledger && y.ledger[n] == x.ledger[n])
    && forall n :: n in x.ledger && n !in order ==> n in y.ledger
  }

  lemma StillThereStep(tables: Ledger, order: seq<string>, ledger: Ledger)
    requires order != [] && order[0] !in order[1..] && order[0] in tables
    ensures |StillThere(tables, order, ledger)| ==
            |StillThere(tables, order[1..], ledger)|
            + if tables[order[0]].table <= 255 && order[0] in ledger then 1 else 0
  {
    var rest := StillThere(tables, order[1..], ledger);
    assert order == [order[0]] + order[1..];
    assert StillThere(tables, order, ledger) ==
           if tables[order[0]].table <= 255 && order[0] in ledger then rest + {order[0]} else rest;
  }

  lemma OneMoreGone(ledger: Ledger, after: Ledger, n: string)
    requires n in ledger && n !in after && after.Keys <= ledger.Keys
    ensures |NewNames(after, ledger)| == |NewNames(after, ledger - {n})| + 1
  {
    assert NewNames(after, ledger) == NewNames(after, ledger - {n}) + {n};
  }

  lemma RestOfOrder(order: seq<string>)
    requires order != []
    ensures forall m :: m in order <==> m == order[0] || m in order[1..]
  {
    assert order == [order[0]] + order[1..];
  }

  lemma RemovalsStep(x: ExecState, next: ExecState, y: ExecState, tables: Ledger, order: seq<string>, gone: bool,
      rest: Tally)
    requires order != [] && order[0] !in order[1..] && order[0] in tables && order[0] in x.ledger
    requires RemovalsTried(next, y, tables, order[1..], rest)
    requires next.ledger == if gone then x.ledger - {order[0]} else x.ledger
    requires gone ==> tables[order[0]].table <= 255
    ensures var one := if 255 < tables[order[0]].table then Tally(0, 0) else if gone then Tally(1, 0) else Tally(0, 1);
            RemovalsTried(x, y, tables, order, Plus(one, rest))
  {
    StillThereStep(tables, order, y.ledger);
    if gone {
      assert y.ledger.Keys <= next.ledger.Keys;
      OneMoreGone(x.ledger, y.ledger, order[0]);
    }
    RestOfOrder(order);
  }

  /** What one removal does: no attempt in a table above 255, and else one. */
  ghost predicate RemovedOne(x: ExecState, next: ExecState, n: string, table: nat, granted: bool) {
    var k, k' := x.router.kernel, next.router.kernel;
    && k'.fault == k.fault
    && next.ledger == (if granted then x.ledger - {n} else x.ledger)
    && if 255 < table then !granted && k'.calls == k.calls
       else
         && k'.calls == AfterPair(k.fault, k.calls, DelRuleCall)
         && (granted <==> PairGranted(k.fault, k.calls, DelRuleCall, DelRouteCall))
  }

  lemma RemovedOneCounts(x: ExecState, next: ExecState, y: ExecState, n: string, table: nat, granted: bool, rest: Tally)
    requires RemovedOne(x, next, n, table, granted)
    requires Counted(next.router.kernel, y.router.kernel, DelRuleCall, DelRouteCall, rest)
    ensures var one := if 255 < table then Tally(0, 0) else if granted then Tally(1, 0) else Tally(0, 1);
            Counted(x.router.kernel, y.router.kernel, DelRuleCall, DelRouteCall, Plus(one, rest))
  {
    if table <= 255 {
      CountedPair(x.router.kernel, next.router.kernel, DelRuleCall, DelRouteCall);
      CountedThen(x.router.kernel, next.router.kernel, y.router.kernel, DelRuleCall, DelRouteCall,
                  if granted then Tally(1, 0) else Tally(0, 1), rest);
    }
  }

  lemma RemovalOneMore(x: ExecState, next: ExecState, y: ExecState, tables: Ledger, order: seq<string>, granted: bool,
      rest: Tally) returns (t: Tally)
    requires order != [] && order[0] !in order[1..] && order[0] in tables && order[0] in x.ledger
    requires RemovedOne(x, next, order[0], tables[order[0]].table, granted)
    requires Counted(next.router.kernel, y.router.kernel, DelRuleCall, DelRouteCall, rest)
    requires RemovalsTried(next, y, tables, order[1..], rest)
    ensures Counted(x.router.kernel, y.router.kernel, DelRuleCall, DelRouteCall, t)
    ensures RemovalsTried(x, y, tables, order, t)
  {
    var one := if 255 < tables[order[0]].table then Tally(0, 0) else if granted then Tally(1, 0) else Tally(0, 1);
    RemovalsStep(x, next, y, tables, order, granted, rest);
    RemovedOneCounts(x, next, y, order[0], tables[order[0]].table, granted, rest);
    t := Plus(one, rest);
  }
}
