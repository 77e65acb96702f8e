/** Rule names and the by-name table of a configuration (src/engine/dispatcher.rs). */
module RuleNames {
  import opened Config
  import opened Rules
  import opened Executor
  import opened Dispatcher
  import opened LedgerInvariants

  ghost predicate DistinctNames(rules: seq<RouteRule>) {
    forall i, j :: 0 <= i < j < |rules| ==> rules[i].name != rules[j].name
  }

  ghost predicate DistinctDestinations(rules: seq<RouteRule>) {
    forall i, j :: 0 <= i < j < |rules| && HasDestination(rules[i]) && HasDestination(rules[j]) ==>
      GetDestination(rules[i]) != GetDestination(rules[j])
  }

  /** The two rules take one place in any table. */
  predicate SameSlot(r: RouteRule, q: RouteRule) {
    && HasDestination(r) && HasDestination(q)
    && GetDestination(r) == GetDestination(q) && r.priority == q.priority
  }

  ghost predicate DistinctSlots(byName: ByName) {
    forall m, n :: m in byName && n in byName && m != n ==> !SameSlot(byName[m], byName[n])
  }

  ghost predicate DistinctConfig(config: Config) {
    DistinctNames(AllRules(config))
  }

  function Named(config: Config): ByName {
    RulesMap(AllRules(config))
  }

  lemma {:induction false} RulesMapMembers(rules: seq<RouteRule>)
    ensures forall n :: n in RulesMap(rules) ==> RulesMap(rules)[n] in rules && RulesMap(rules)[n].name == n
    ensures forall r :: r in rules ==> r.name in RulesMap(rules)
  {
    if rules != [] {
      RulesMapMembers(rules[..|rules| - 1]);
      assert rules == rules[..|rules| - 1] + [rules[|rules| - 1]];
    }
  }

  /** Of rules with one name the table holds the last. */
  lemma {:induction false} LaterRuleWins(rules: seq<RouteRule>, i: nat)
    requires i < |rules| && forall j :: i < j < |rules| ==> rules[j].name != rules[i].name
    ensures rules[i].name in RulesMap(rules) && RulesMap(rules)[rules[i].name] == rules[i]
  {
    var init := rules[..|rules| - 1];
    if i < |rules| - 1 {
      assert init[i] == rules[i] && forall j :: 0 <= j < |init| ==> init[j] == rules[j];
      LaterRuleWins(init, i);
    }
  }

  /** So a profile's rule hides a default rule of its name. */
  lemma ProfileRuleWins(config: Config, i: nat)
    requires i < |ProfileRules(config.wifiProfiles)|
    requires forall j :: i < j < |ProfileRules(config.wifiProfiles)| ==>
               ProfileRules(config.wifiProfiles)[j].name != ProfileRules(config.wifiProfiles)[i].name
    ensures var r := ProfileRules(config.wifiProfiles)[i]; r.name in Named(config) && Named(config)[r.name] == r
  {
    var k := |config.defaultRules|;
    assert forall j :: 0 <= j < |ProfileRules(config.wifiProfiles)| ==>
                         AllRules(config)[k + j] == ProfileRules(config.wifiProfiles)[j];
    LaterRuleWins(AllRules(config), k + i);
  }

  /** With distinct names the by-name table holds every rule of the configuration. */
  lemma NamedIsDistinct(config: Config)
    requires DistinctConfig(config)
    ensures KeyedByName(Named(config))
    ensures forall r :: r in AllRules(config) ==> Registered(Named(config), r)
  {
    var all := AllRules(config);
    RulesMapMembers(all);
    forall r | r in all ensures Registered(Named(config), r) {
      var i :| 0 <= i < |all| && all[i] == r;
      var j :| 0 <= j < |all| && all[j] == Named(config)[r.name];
      assert r.name in Named(config) && Named(config)[r.name].name == r.name;
      assert all[i].name == all[j].name;
      assert i == j;
    }
  }

  /** With distinct destinations no rule shares its destination with another. */
  lemma DestinationNamesRule(config: Config, m: string, n: string)
    requires DistinctDestinations(AllRules(config)) && m in Named(config) && n in Named(config)
    requires HasDestination(Named(config)[m]) && HasDestination(Named(config)[n])
    requires GetDestination(Named(config)[m]) == GetDestination(Named(config)[n])
    ensures m == n
  {
    var all := AllRules(config);
    RulesMapMembers(all);
    var i :| 0 <= i < |all| && all[i] == Named(config)[m];
    var j :| 0 <= j < |all| && all[j] == Named(config)[n];
    assert i == j;
  }

  /** So every tracked rule has an entry of its own. */
  lemma DestinationsGiveOneEach(config: Config, ledger: Ledger)
    requires DistinctDestinations(AllRules(config)) && Tracked(Named(config), ledger)
    ensures OneEach(Named(config), ledger)
  {
    forall m, n | m in ledger && n in ledger && m != n
      ensures EntryOf(Named(config), ledger, m) != EntryOf(Named(config), ledger, n)
    {
      if EntryOf(Named(config), ledger, m) == EntryOf(Named(config), ledger, n) {
        DestinationNamesRule(config, m, n);
      }
    }
  }

  /** The rule r belongs to the profile found for the SSID. */
  predicate InProfile(profiles: seq<(string, WifiProfile)>, ssid: string, r: RouteRule) {
    ProfileFor(profiles, ssid).Some? && r in ProfileFor(profiles, ssid).value.rules
  }

  lemma {:induction false} ProfilesAreDisjoint(profiles: seq<(string, WifiProfile)>, a: string, b: string,
      r: RouteRule, q: RouteRule)
    requires DistinctNames(ProfileRules(profiles)) && a != b && InProfile(profiles, a, r) && InProfile(profiles, b, q)
    ensures r.name != q.name
  {
    var first, rest := profiles[0].1.rules, ProfileRules(profiles[1..]);
    var all := ProfileRules(profiles);
    if profiles[0].0 == a || profiles[0].0 == b {
      var (here, there) := if profiles[0].0 == a then (r, q) else (q, r);
      ProfileRulesIncluded(profiles[1..], if profiles[0].0 == a then b else a);
      var i :| 0 <= i < |first| && first[i] == here;
      var j :| 0 <= j < |rest| && rest[j] == there;
      assert all[i] == here && all[|first| + j] == there;
    } else {
      assert forall i :: 0 <= i < |rest| ==> rest[i] == all[|first| + i];
      ProfilesAreDisjoint(profiles[1..], a, b, r, q);
    }
  }

  lemma DefaultsAreNotInProfiles(config: Config, d: RouteRule, ssid: string, r: RouteRule)
    requires DistinctNames(AllRules(config)) && d in config.defaultRules && InProfile(config.wifiProfiles, ssid, r)
    ensures d.name != r.name
  {
    var all := AllRules(config);
    var profiled := ProfileRules(config.wifiProfiles);
    ProfileRulesIncluded(config.wifiProfiles, ssid);
    var i :| 0 <= i < |config.defaultRules| && config.defaultRules[i] == d;
    var j :| 0 <= j < |profiled| && profiled[j] == r;
    assert all[i] == d && all[|config.defaultRules| + j] == r;
  }

  lemma ProfileRulesAreDistinct(config: Config)
    requires DistinctNames(AllRules(config))
    ensures DistinctNames(ProfileRules(config.wifiProfiles))
  {
    var profiled, k := ProfileRules(config.wifiProfiles), |config.defaultRules|;
    forall i, j | 0 <= i < j < |profiled| ensures profiled[i].name != profiled[j].name {
      assert profiled[i] == AllRules(config)[k + i] && profiled[j] == AllRules(config)[k + j];
    }
  }

  lemma ProfileNamesApart(config: Config, a: string, b: string, r: RouteRule, q: RouteRule)
    requires DistinctNames(AllRules(config)) && a != b
    requires InProfile(config.wifiProfiles, a, r) && InProfile(config.wifiProfiles, b, q)
    ensures r.name != q.name
  {
    ProfileRulesAreDistinct(config);
    ProfilesAreDisjoint(config.wifiProfiles, a, b, r, q);
  }
}
