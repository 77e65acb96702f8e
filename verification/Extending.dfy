/** Applying several rules in one event (src/engine/dispatcher.rs, src/engine/executor.rs). */
module Extending {
  import opened Config
  import opened Kernel
  import opened Rules
  import opened Executor
  import opened Dispatcher
  import opened LedgerInvariants

  /** Another tracked rule stands for the same entry. */
  ghost predicate SharesEntry(byName: ByName, ledger: Ledger, n: string)
    requires Tracked(byName, ledger) && n in ledger
  {
    exists m :: m in ledger && m != n && EntryOf(byName, ledger, m) == EntryOf(byName, ledger, n)
  }

  /** The rule's route was there before, goes via its own interface, or is another's too. */
  ghost predicate Accounted(byName: ByName, x: ExecState, y: ExecState, n: string)
    requires Tracked(byName, y.ledger) && n in y.ledger
  {
    var e := EntryOf(byName, y.ledger, n);
    || e in x.router.kernel.routes
    || (e in y.router.kernel.routes && y.router.kernel.routes[e] == byName[n].via)
    || SharesEntry(byName, y.ledger, n)
  }

  /** y is x after some applications, finished or not: every tracked entry is installed besides
      what was there, and every new route is a tracked rule's. */
  ghost predicate Extended(byName: ByName, x: ExecState, y: ExecState) {
    && SameMachine(x, y)
    && Tracked(byName, x.ledger) && Tracked(byName, y.ledger) && x.ledger.Keys <= y.ledger.Keys
    && x.router.kernel.rules + Determined(byName, y.ledger) <= y.router.kernel.rules
    && y.router.kernel.routes.Keys == x.router.kernel.routes.Keys + Determined(byName, y.ledger)
    && (forall e :: e in x.router.kernel.routes ==> y.router.kernel.routes[e] == x.router.kernel.routes[e])
    && forall n :: n in y.ledger ==> Accounted(byName, x, y, n)
  }

  /** Every policy rule added is a tracked rule's: no application stopped half way and left one. */
  ghost predicate NoStrays(byName: ByName, x: ExecState, y: ExecState)
    requires Tracked(byName, y.ledger)
  {
    y.router.kernel.rules <= x.router.kernel.rules + Determined(byName, y.ledger)
  }

  lemma ExtendedByNothing(byName: ByName, x: ExecState)
    requires Tracked(byName, x.ledger)
    requires Determined(byName, x.ledger) <= x.router.kernel.rules
    requires Determined(byName, x.ledger) <= x.router.kernel.routes.Keys
    ensures Extended(byName, x, x) && NoStrays(byName, x, x)
  {
    forall n | n in x.ledger ensures Accounted(byName, x, x, n) {
      assert EntryOf(byName, x.ledger, n) in Determined(byName, x.ledger);
    }
  }

  /** A tracked entry that is not in this table was there from the start. */
  ghost predicate Settled(byName: ByName, x: ExecState, y: ExecState, table: nat)
    requires Tracked(byName, y.ledger)
  {
    forall n :: n in y.ledger && y.ledger[n].table != table ==>
      var e := EntryOf(byName, y.ledger, n); e in x.router.kernel.rules && e in x.router.kernel.routes
  }

  /** The rule is new to the ledger, or no tracked rule outside the table is a newcomer. */
  ghost predicate MayTrack(byName: ByName, x: ExecState, y: ExecState, rule: RouteRule, table: nat)
    requires Tracked(byName, y.ledger)
  {
    rule.name !in y.ledger || Settled(byName, x, y, table)
  }

  /** What the rule's old entry, if it had one, was. */
  lemma OldEntryStays(byName: ByName, x: ExecState, y: ExecState, rule: RouteRule, table: nat)
    requires Tracked(byName, y.ledger) && Registered(byName, rule) && HasDestination(rule)
    requires MayTrack(byName, x, y, rule, table)
    ensures var d' := Determined(byName, y.ledger - {rule.name}) + {EntryFor(rule, table)};
            && Determined(byName, y.ledger) <= d' + x.router.kernel.rules
            && Determined(byName, y.ledger) <= d' + x.router.kernel.routes.Keys
            && d' <= Determined(byName, y.ledger) + {EntryFor(rule, table)}
  {
    if rule.name in y.ledger {
      DeterminedUntrack(byName, y.ledger, rule.name);
    } else {
      assert y.ledger - {rule.name} == y.ledger;
    }
  }

  lemma ExtendEntries(byName: ByName, x: ExecState, y: ExecState, z: ExecState, rule: RouteRule, table: nat)
    requires Registered(byName, rule) && Extended(byName, x, y) && Installed(y, z, rule, table)
    requires MayTrack(byName, x, y, rule, table)
    ensures Tracked(byName, z.ledger)
    ensures x.router.kernel.rules + Determined(byName, z.ledger) <= z.router.kernel.rules
    ensures z.router.kernel.routes.Keys == x.router.kernel.routes.Keys + Determined(byName, z.ledger)
    ensures NoStrays(byName, x, y) ==> NoStrays(byName, x, z)
  {
    var e := EntryFor(rule, table);
    DeterminedTrack(byName, y.ledger, rule, table);
    OldEntryStays(byName, x, y, rule, table);
    assert z.router.kernel.routes.Keys == y.router.kernel.routes.Keys + {e};
  }

  lemma AccountedStep(byName: ByName, x: ExecState, y: ExecState, z: ExecState, rule: RouteRule, table: nat, n: string)
    requires Registered(byName, rule) && Extended(byName, x, y) && Installed(y, z, rule, table)
    requires MayTrack(byName, x, y, rule, table) && Tracked(byName, z.ledger) && n in z.ledger
    ensures Accounted(byName, x, z, n)
  {
    var e := EntryOf(byName, z.ledger, n);
    if n != rule.name {
      assert Accounted(byName, x, y, n) && EntryOf(byName, y.ledger, n) == e;
      if SharesEntry(byName, y.ledger, n) {
        var m :| m in y.ledger && m != n && EntryOf(byName, y.ledger, m) == e;
        assert m != rule.name ==> EntryOf(byName, z.ledger, m) == e;
      }
    } else if e in y.router.kernel.routes && e !in x.router.kernel.routes {
      assert e in Determined(byName, y.ledger);
      var m :| m in y.ledger && EntryOf(byName, y.ledger, m) == e;
      assert Accounted(byName, x, y, m);
      if m != n {
        assert EntryOf(byName, z.ledger, m) == e;
      } else if SharesEntry(byName, y.ledger, n) {
        var l :| l in y.ledger && l != n && EntryOf(byName, y.ledger, l) == e;
        assert EntryOf(byName, z.ledger, l) == e;
      }
    }
  }

  lemma ExtendStep(byName: ByName, x: ExecState, y: ExecState, z: ExecState, rule: RouteRule, table: nat)
    requires Registered(byName, rule) && Extended(byName, x, y) && Installed(y, z, rule, table)
    requires MayTrack(byName, x, y, rule, table) && SameMachine(y, z)
    ensures Extended(byName, x, z) && (NoStrays(byName, x, y) ==> NoStrays(byName, x, z))
  {
    ExtendEntries(byName, x, y, z, rule, table);
    forall n | n in z.ledger ensures Accounted(byName, x, z, n) {
      AccountedStep(byName, x, y, z, rule, table, n);
    }
  }

  /** One application more, however far it gets. */
  lemma ApplyExtends(byName: ByName, x: ExecState, y: ExecState, rule: RouteRule, table: nat)
    requires Registered(byName, rule) && Extended(byName, x, y) && !y.router.dryRun
    requires MayTrack(byName, x, y, rule, table)
    ensures var z := Apply(y, rule, table).0;
            && Extended(byName, x, z) && SameMachine(y, z)
            && (NoStrays(byName, x, y) && WholeOperations(y.router.kernel) ==> NoStrays(byName, x, z))
  {
    ApplyOutcome(y, rule, table);
    var (z, r) := Apply(y, rule, table);
    if r.Ok? {
      ExtendStep(byName, x, y, z, rule, table);
    } else {
      forall n | n in z.ledger ensures Accounted(byName, x, z, n) {
        assert Accounted(byName, x, y, n);
      }
    }
  }

  lemma {:induction false} DefaultsExtend(byName: ByName, x: ExecState, y: ExecState, rules: seq<RouteRule>, table: nat)
    requires Extended(byName, x, y) && !y.router.dryRun && forall r :: r in rules ==> Registered(byName, r)
    ensures var z := ApplyDefaults(y, rules, table);
            && Extended(byName, x, z) && SameMachine(y, z)
            && (NoStrays(byName, x, y) && WholeOperations(y.router.kernel) ==> NoStrays(byName, x, z))
    decreases |rules|
  {
    if rules != [] {
      assert forall r :: r in rules[1..] ==> r in rules;
      if rules[0].name in y.ledger {
        DefaultsExtend(byName, x, y, rules[1..], table);
      } else {
        ApplyExtends(byName, x, y, rules[0], table);
        DefaultsExtend(byName, x, Apply(y, rules[0], table).0, rules[1..], table);
      }
    }
  }

  lemma SettledStep(byName: ByName, x: ExecState, y: ExecState, rule: RouteRule, table: nat)
    requires Tracked(byName, y.ledger) && Settled(byName, x, y, table) && Registered(byName, rule)
    requires Tracked(byName, Apply(y, rule, table).0.ledger)
    ensures Settled(byName, x, Apply(y, rule, table).0, table)
  {
    var z := Apply(y, rule, table).0;
    forall n | n in z.ledger && z.ledger[n].table != table
      ensures var e := EntryOf(byName, z.ledger, n); e in x.router.kernel.rules && e in x.router.kernel.routes
    {
      assert EntryOf(byName, z.ledger, n) == EntryOf(byName, y.ledger, n);
    }
  }

  lemma {:induction false} ProfileExtends(byName: ByName, x: ExecState, y: ExecState, rules: seq<RouteRule>, table: nat)
    requires Extended(byName, x, y) && !y.router.dryRun && forall r :: r in rules ==> Registered(byName, r)
    requires Settled(byName, x, y, table)
    ensures var z := ApplyProfile(y, rules, table);
            && Extended(byName, x, z) && SameMachine(y, z)
            && (NoStrays(byName, x, y) && WholeOperations(y.router.kernel) ==> NoStrays(byName, x, z))
    decreases |rules|
  {
    if rules != [] {
      assert forall r :: r in rules[1..] ==> r in rules;
      ApplyExtends(byName, x, y, rules[0], table);
      SettledStep(byName, x, y, rules[0], table);
      ProfileExtends(byName, x, Apply(y, rules[0], table).0, rules[1..], table);
    }
  }

  // ---------------------------------------------------------------------------------------
  // The ledger
  // ---------------------------------------------------------------------------------------

  /** What applications do to the ledger: entries stay, or are tracked in this table anew. */
  ghost predicate OnlyTracks(ledger: Ledger, ledger': Ledger, rules: seq<RouteRule>, table: nat) {
    && ledger.Keys <= ledger'.Keys
    && forall n :: n in ledger' ==>
         (n in ledger && ledger'[n] == ledger[n]) ||
         (ledger'[n].table == table && exists r :: r in rules && r.name == n)
  }

  lemma {:induction false} ProfileTracks(x: ExecState, rules: seq<RouteRule>, table: nat)
    ensures OnlyTracks(x.ledger, ApplyProfile(x, rules, table).ledger, rules, table)
    decreases |rules|
  {
    if rules != [] {
      assert rules == [rules[0]] + rules[1..];
      ProfileTracks(Apply(x, rules[0], table).0, rules[1..], table);
    }
  }

  lemma {:induction false} DefaultsTrack(x: ExecState, rules: seq<RouteRule>, table: nat)
    ensures OnlyTracks(x.ledger, ApplyDefaults(x, rules, table).ledger, rules, table)
    ensures forall n :: n in x.ledger ==> ApplyDefaults(x, rules, table).ledger[n] == x.ledger[n]
    decreases |rules|
  {
    if rules != [] {
      assert rules == [rules[0]] + rules[1..];
      DefaultsTrack(if rules[0].name in x.ledger then x else Apply(x, rules[0], table).0, rules[1..], table);
    }
  }

  lemma {:induction false} ProfileKeepsBase(x: ExecState, rules: seq<RouteRule>, table: nat)
    ensures ApplyProfile(x, rules, table).router.base == x.router.base
    decreases |rules|
  {
    if rules != [] {
      ProfileKeepsBase(Apply(x, rules[0], table).0, rules[1..], table);
    }
  }

  lemma {:induction false} DefaultsKeepBase(x: ExecState, rules: seq<RouteRule>, table: nat)
    ensures ApplyDefaults(x, rules, table).router.base == x.router.base
    decreases |rules|
  {
    if rules != [] {
      DefaultsKeepBase(if rules[0].name in x.ledger then x else Apply(x, rules[0], table).0, rules[1..], table);
    }
  }

  // ---------------------------------------------------------------------------------------
  // What several applications keep
  // ---------------------------------------------------------------------------------------

  /** No tracked rule changes its table. */
  ghost predicate StaysPut(ledger: Ledger, ledger': Ledger) {
    forall n :: n in ledger && n in ledger' ==> ledger'[n].table == ledger[n].table
  }

  lemma PutEntriesStay(byName: ByName, ledger: Ledger, ledger': Ledger)
    requires Tracked(byName, ledger) && Tracked(byName, ledger')
    requires ledger.Keys <= ledger'.Keys && StaysPut(ledger, ledger')
    ensures Determined(byName, ledger) <= Determined(byName, ledger')
  {
    forall n | n in ledger ensures EntryOf(byName, ledger, n) in Determined(byName, ledger') {
      assert n in ledger' && EntryOf(byName, ledger', n) == EntryOf(byName, ledger, n);
    }
  }

  /** The entry a moved rule had is no tracked rule's any more. */
  lemma MovedEntryIsLost(byName: ByName, ledger: Ledger, ledger': Ledger, rules: seq<RouteRule>, table: nat)
    requires Tracked(byName, ledger) && Tracked(byName, ledger') && OneEach(byName, ledger)
    requires OnlyTracks(ledger, ledger', rules, table) && !StaysPut(ledger, ledger')
    ensures !(Determined(byName, ledger) <= Determined(byName, ledger'))
  {
    var n :| n in ledger && n in ledger' && ledger'[n].table != ledger[n].table;
    var e := EntryOf(byName, ledger, n);
    assert e in Determined(byName, ledger);
    forall m | m in ledger' ensures EntryOf(byName, ledger', m) != e {
      if m in ledger && ledger'[m] == ledger[m] {
        assert EntryOf(byName, ledger', m) == EntryOf(byName, ledger, m);
      }
    }
  }

  lemma ExtendedAtHome(byName: ByName, left: Leftovers, x: ExecState, y: ExecState)
    requires Exact(byName, left, x) && Extended(byName, x, y) && StaysPut(x.ledger, y.ledger)
    requires OneEach(byName, y.ledger) && Apart(Determined(byName, y.ledger), left)
    ensures AtHome(byName, y.ledger, y.router.kernel.routes)
  {
    forall n | n in y.ledger
      ensures EntryOf(byName, y.ledger, n) in y.router.kernel.routes
      ensures y.router.kernel.routes[EntryOf(byName, y.ledger, n)] == byName[n].via
    {
      var e := EntryOf(byName, y.ledger, n);
      assert Accounted(byName, x, y, n) && e in Determined(byName, y.ledger);
      if e in x.router.kernel.routes {
        assert e in Determined(byName, x.ledger);
        var m :| m in x.ledger && EntryOf(byName, x.ledger, m) == e;
        assert EntryOf(byName, y.ledger, m) == e;
      }
    }
  }

  /** Several applications, finished or not, keep the ledger exact precisely when they leave no
      policy rule without its tracking, move no tracked rule to another table, and give every
      tracked rule an entry of its own that is no leftover. */
  lemma ExtendingKeepsExact(byName: ByName, left: Leftovers, x: ExecState, y: ExecState, rules: seq<RouteRule>,
      table: nat)
    requires Exact(byName, left, x) && Extended(byName, x, y)
    requires StaysPut(x.ledger, y.ledger) || OnlyTracks(x.ledger, y.ledger, rules, table)
    ensures Exact(byName, left, y) <==>
            && NoStrays(byName, x, y) && StaysPut(x.ledger, y.ledger)
            && OneEach(byName, y.ledger) && Apart(Determined(byName, y.ledger), left)
  {
    if StaysPut(x.ledger, y.ledger) {
      PutEntriesStay(byName, x.ledger, y.ledger);
      PutKeepsAccounts(byName, left, x, y);
      if OneEach(byName, y.ledger) && Apart(Determined(byName, y.ledger), left) {
        ExtendedAtHome(byName, left, x, y);
      }
    } else {
      MovedEntryIsLost(byName, x.ledger, y.ledger, rules, table);
    }
  }

  lemma PutKeepsAccounts(byName: ByName, left: Leftovers, x: ExecState, y: ExecState)
    requires Exact(byName, left, x) && Extended(byName, x, y)
    requires Determined(byName, x.ledger) <= Determined(byName, y.ledger)
    ensures Accounts(Determined(byName, y.ledger), left, y.router.kernel.rules, y.router.kernel.routes) <==>
            NoStrays(byName, x, y) && Apart(Determined(byName, y.ledger), left)
  {
  }
}
