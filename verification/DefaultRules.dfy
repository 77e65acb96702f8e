/** Default rules are global: applying them again, for any interface, changes nothing
    (src/engine/dispatcher.rs, src/engine/executor.rs). */
module DefaultRules {
  import opened Wrappers
  import opened Config
  import opened Kernel
  import opened Rules
  import opened Executor
  import opened State
  import opened Dispatcher

  /** Some rule of this name can be installed. */
  ghost predicate InstallableName(rules: seq<RouteRule>, name: string) {
    exists r :: r in rules && r.name == name && Installable(r)
  }

  /** Without faults every installable name ends up active, no other name is added, and the
      entries that were active stay as they were. */
  lemma {:induction false} DefaultsActivate(x: ExecState, rules: seq<RouteRule>, table: nat)
    requires NeverRefuses(x.router)
    ensures var y := ApplyDefaults(x, rules, table);
            && (forall n :: n in y.ledger <==> n in x.ledger || InstallableName(rules, n))
            && (forall n :: n in x.ledger ==> y.ledger[n] == x.ledger[n])
            && (forall n :: n in y.ledger && n !in x.ledger ==> y.ledger[n].table == table)
    decreases |rules|
  {
    if rules != [] {
      var r := rules[0];
      assert rules == [r] + rules[1..];
      var next := if r.name in x.ledger then x else Apply(x, r, table).0;
      assert forall n :: n in next.ledger <==> n in x.ledger || (n == r.name && Installable(r));
      DefaultsActivate(next, rules[1..], table);
      assert forall n :: InstallableName(rules, n) <==>
                         (n == r.name && Installable(r)) || InstallableName(rules[1..], n);
    }
  }

  /** Once all installable names are active nothing is called and nothing changes. */
  lemma {:induction false} DefaultsSettle(x: ExecState, rules: seq<RouteRule>, table: nat)
    requires forall r :: r in rules && Installable(r) ==> r.name in x.ledger
    ensures ApplyDefaults(x, rules, table) == x
    decreases |rules|
  {
    if rules != [] {
      assert rules == [rules[0]] + rules[1..];
      assert rules[0].name !in x.ledger ==> Apply(x, rules[0], table).0 == x;
      DefaultsSettle(x, rules[1..], table);
    }
  }

  function ApplyToAll(s: EngineState, interfaces: seq<string>): EngineState
    decreases |interfaces|
  {
    if interfaces == [] then s else ApplyToAll(ApplyDefaultRules(s, interfaces[0]), interfaces[1..])
  }

  lemma {:induction false} LaterInterfacesAddNothing(s: EngineState, interfaces: seq<string>)
    requires forall r :: r in s.config.defaultRules && Installable(r) ==> r.name in s.exec.ledger
    ensures ApplyToAll(s, interfaces).exec == s.exec
    decreases |interfaces|
  {
    if interfaces != [] {
      DefaultsSettle(s.exec, s.config.defaultRules, TableFor(s, interfaces[0]).1);
      LaterInterfacesAddNothing(ApplyDefaultRules(s, interfaces[0]), interfaces[1..]);
    }
  }

  /** Without faults, the default rules applied for any list of interfaces leave the kernel
      and the ledger exactly as applying them for the first one does. */
  lemma DefaultsInstallOnce(s: EngineState, interfaces: seq<string>)
    requires NeverRefuses(s.exec.router) && interfaces != []
    ensures ApplyToAll(s, interfaces).exec == ApplyDefaultRules(s, interfaces[0]).exec
    ensures forall n :: n in ApplyToAll(s, interfaces).exec.ledger <==>
                        n in s.exec.ledger || InstallableName(s.config.defaultRules, n)
  {
    var first := ApplyDefaultRules(s, interfaces[0]);
    DefaultsActivate(s.exec, s.config.defaultRules, TableFor(s, interfaces[0]).1);
    forall r | r in s.config.defaultRules && Installable(r) ensures r.name in first.exec.ledger {
      assert InstallableName(s.config.defaultRules, r.name);
    }
    LaterInterfacesAddNothing(first, interfaces[1..]);
  }

  /** The first listed interface that is up and configured. */
  function FirstUp(config: Config, infos: seq<InterfaceInfo>): Option<string> {
    if infos == [] then None
    else if infos[0].isUp && infos[0].name in config.interfaces then Some(infos[0].name)
    else FirstUp(config, infos[1..])
  }

  lemma {:induction false} SettledStartupAddsNothing(s: EngineState, infos: seq<InterfaceInfo>)
    requires forall r :: r in s.config.defaultRules && Installable(r) ==> r.name in s.exec.ledger
    ensures ApplyInitial(s, infos).exec == s.exec
    decreases |infos|
  {
    if infos != [] {
      var next := s;
      if infos[0].isUp && infos[0].name in s.config.interfaces {
        DefaultsSettle(s.exec, s.config.defaultRules, TableFor(s, infos[0].name).1);
        next := ApplyDefaultRules(s, infos[0].name);
      }
      SettledStartupAddsNothing(next, infos[1..]);
    }
  }

  /** Startup without faults is one application, for the first interface that qualifies; all
      default rules share its table, whatever the others are. */
  lemma {:induction false} StartupInstallsOnce(s: EngineState, infos: seq<InterfaceInfo>)
    requires NeverRefuses(s.exec.router)
    ensures var first := FirstUp(s.config, infos);
            ApplyInitial(s, infos).exec == if first.None? then s.exec else ApplyDefaultRules(s, first.value).exec
    decreases |infos|
  {
    if infos != [] {
      if infos[0].isUp && infos[0].name in s.config.interfaces {
        var next := ApplyDefaultRules(s, infos[0].name);
        DefaultsActivate(s.exec, s.config.defaultRules, TableFor(s, infos[0].name).1);
        forall r | r in s.config.defaultRules && Installable(r) ensures r.name in next.exec.ledger {
          assert InstallableName(s.config.defaultRules, r.name);
        }
        SettledStartupAddsNothing(next, infos[1..]);
      } else {
        StartupInstallsOnce(s, infos[1..]);
      }
    }
  }
}
