/** Rules, profiles and their validation (src/config/schema.rs). */
module Config {
  import opened Wrappers
  import opened Net

  const U32_MAX: nat := 0xFFFF_FFFF

  type U32 = n: nat | n <= U32_MAX

  datatype MatchOn =
    | Cidr(cidr: IpNetwork)
    | Ip(ip: IpAddr)
    | Domain(domain: string)
    | DomainPattern(pattern: string)

  datatype RouteRule = RouteRule(name: string, matchOn: MatchOn, via: string, priority: U32)

  const MIN_TABLE_ID_START: nat := 100
  const MAX_TABLE_ID_START: nat := 252

  /** The global section, its log level reduced to whether it is one of the five known. */
  datatype GlobalConfig = GlobalConfig(monitorInterval: nat, knownLogLevel: bool, tableIdStart: U32)

  function ValidateGlobal(global: GlobalConfig): Result<()> {
    if global.monitorInterval == 0 then Err(ConfigError)
    else if !global.knownLogLevel then Err(ConfigError)
    else if global.tableIdStart < MIN_TABLE_ID_START || MAX_TABLE_ID_START < global.tableIdStart then Err(ConfigError)
    else Ok(())
  }

  datatype WifiProfile = WifiProfile(interface: string, rules: seq<RouteRule>)

  /** The hash maps keyed by interface name and by SSID are held as sequences: a fixed map
      is always walked in one fixed order, and every statement here is for all orders. */
  datatype Config = Config(
    interfaces: seq<string>,
    wifiProfiles: seq<(string, WifiProfile)>,
    defaultRules: seq<RouteRule>)

  function ProfileFor(profiles: seq<(string, WifiProfile)>, ssid: string): Option<WifiProfile> {
    if profiles == [] then None
    else if profiles[0].0 == ssid then Some(profiles[0].1)
    else ProfileFor(profiles[1..], ssid)
  }

  /** The profile found is the first one entered for the SSID, and none is found only when none
      is entered. */
  lemma {:induction false} ProfileForFinds(profiles: seq<(string, WifiProfile)>, ssid: string)
    ensures match ProfileFor(profiles, ssid)
            case Some(profile) =>
              exists i :: 0 <= i < |profiles| && profiles[i] == (ssid, profile)
                          && forall j :: 0 <= j < i ==> profiles[j].0 != ssid
            case None => forall i :: 0 <= i < |profiles| ==> profiles[i].0 != ssid
  {
    if profiles != [] {
      var rest := profiles[1..];
      if profiles[0].0 == ssid {
        assert profiles[0] == (ssid, profiles[0].1);
      } else {
        ProfileForFinds(rest, ssid);
        assert forall i :: 0 < i < |profiles| ==> profiles[i] == rest[i - 1];
        if ProfileFor(rest, ssid).Some? {
          var i :| 0 <= i < |rest| && rest[i] == (ssid, ProfileFor(rest, ssid).value)
                   && forall j :: 0 <= j < i ==> rest[j].0 != ssid;
          assert profiles[i + 1] == (ssid, ProfileFor(rest, ssid).value);
        }
      }
    }
  }

  predicate StripsPrefix(pattern: string) {
    pattern != "" && pattern[0] == '*'
  }

  predicate StripsSuffix(pattern: string) {
    pattern != "" && pattern[|pattern| - 1] == '*'
  }

  function EnsureNoInnerStar(rest: string): Result<()> {
    if '*' in rest then Err(ConfigError) else Ok(())
  }

  function ValidateDomainPattern(pattern: string): Result<()> {
    if pattern == "*" then Ok(())
    else if StripsPrefix(pattern) then EnsureNoInnerStar(pattern[1..])
    else if StripsSuffix(pattern) then EnsureNoInnerStar(pattern[..|pattern| - 1])
    else Err(ConfigError)
  }

  predicate ValidRule(rule: RouteRule) {
    && rule.name != ""
    && (rule.matchOn.DomainPattern? ==> ValidateDomainPattern(rule.matchOn.pattern).Ok?)
  }

  predicate OnlyStarAt(pattern: string, k: nat) {
    k < |pattern| && pattern[k] == '*' && forall j :: 0 <= j < |pattern| && j != k ==> pattern[j] != '*'
  }

  /** Accepted patterns are exactly those whose one star is their first or last character. */
  lemma AcceptedPatterns(pattern: string)
    ensures ValidateDomainPattern(pattern).Ok? <==>
            OnlyStarAt(pattern, 0) || (pattern != "" && OnlyStarAt(pattern, |pattern| - 1))
  {
    if StripsPrefix(pattern) {
      var rest := pattern[1..];
      assert forall j :: 0 < j < |pattern| ==> pattern[j] == rest[j - 1];
      assert forall j :: 0 <= j < |rest| ==> rest[j] == pattern[j + 1];
    } else if StripsSuffix(pattern) {
      var rest := pattern[..|pattern| - 1];
      assert forall j :: 0 <= j < |rest| ==> rest[j] == pattern[j];
    }
  }

  /** All the rules a configuration can install, in the order a by-name table meets them. */
  function AllRules(config: Config): seq<RouteRule> {
    config.defaultRules + ProfileRules(config.wifiProfiles)
  }

  function ProfileRules(profiles: seq<(string, WifiProfile)>): seq<RouteRule> {
    if profiles == [] then [] else profiles[0].1.rules + ProfileRules(profiles[1..])
  }

  /** A profile found by its SSID contributes its rules to the configuration. */
  lemma {:induction false} ProfileRulesIncluded(profiles: seq<(string, WifiProfile)>, ssid: string)
    requires ProfileFor(profiles, ssid).Some?
    ensures forall r :: r in ProfileFor(profiles, ssid).value.rules ==> r in ProfileRules(profiles)
  {
    if profiles[0].0 != ssid {
      ProfileRulesIncluded(profiles[1..], ssid);
    }
  }
}
