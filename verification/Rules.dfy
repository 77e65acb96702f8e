/** Applying and removing one rule: two kernel changes each (src/router/rules.rs). */
module Rules {
  import opened Wrappers
  import opened Net
  import opened Config
  import opened Kernel
  import opened Matcher

  predicate HasDestination(rule: RouteRule) {
    rule.matchOn.Cidr? || rule.matchOn.Ip?
  }

  /** Domains and domain patterns have no destination until they are resolved. */
  function GetDestination(rule: RouteRule): Result<IpNetwork> {
    match rule.matchOn
    case Cidr(cidr) => Ok(cidr)
    case Ip(ip) => Ok(HostNetwork(ip))
    case _ => Err(InvalidInput)
  }

  function ValidateRule(rule: RouteRule): Result<()> {
    if !ValidRule(rule) then Err(ConfigError)
    else if rule.name == "" || rule.via == "" then Err(InvalidInput)
    else Ok(())
  }

  /** Rules that can ever reach the kernel. */
  predicate Installable(rule: RouteRule) {
    ValidateRule(rule).Ok? && HasDestination(rule)
  }

  /** Validation asks for a name and an interface, and of a domain pattern that its one star is
      first or last; with an address or a network besides, the rule can be installed. */
  lemma InstallableIff(rule: RouteRule)
    ensures ValidateRule(rule).Ok? <==>
            && rule.name != "" && rule.via != ""
            && (rule.matchOn.DomainPattern? ==>
                  var p := rule.matchOn.pattern; OnlyStarAt(p, 0) || (p != "" && OnlyStarAt(p, |p| - 1)))
    ensures Installable(rule) <==> (rule.matchOn.Cidr? || rule.matchOn.Ip?) && rule.name != "" && rule.via != ""
    ensures !(rule.matchOn.Cidr? || rule.matchOn.Ip?) ==> GetDestination(rule) == Err(InvalidInput)
    ensures rule.name == "" ==> ValidateRule(rule) == Err(ConfigError)
    ensures Installable(rule.(via := "x")) && rule.via == "" ==> ValidateRule(rule) == Err(InvalidInput)
  {
    if rule.matchOn.DomainPattern? {
      AcceptedPatterns(rule.matchOn.pattern);
    }
  }

  function EntryFor(rule: RouteRule, table: nat): Entry
    requires HasDestination(rule)
  {
    Entry(GetDestination(rule).value, table, rule.priority)
  }

  /** The destination a rule is installed for covers exactly the addresses the matcher
      accepts for it, /32 and /128 host networks included. */
  lemma DestinationCoversMatches(rule: RouteRule, a: IpAddr)
    requires HasDestination(rule)
    ensures Contains(GetDestination(rule).value, a) <==> RuleMatches(rule, DestIp(a))
  {
    if rule.matchOn.Ip? {
      HostNetworkContainsOnly(rule.matchOn.ip, a);
    }
  }

  function ApplyRule(r: RouterState, rule: RouteRule, table: nat): (RouterState, Result<()>) {
    if GetDestination(rule).Err? then (r, Err(InvalidInput))
    else
      var e := EntryFor(rule, table);
      var (r1, added) := AddPolicyRule(r, e);
      if added.Err? then (r1, added) else AddRouteVia(r1, e, rule.via)
  }

  function RemoveRule(r: RouterState, rule: RouteRule, table: nat): (RouterState, Result<()>) {
    if GetDestination(rule).Err? then (r, Err(InvalidInput))
    else
      var e := EntryFor(rule, table);
      var (r1, removed) := RemovePolicyRule(r, e);
      if removed.Err? then (r1, removed) else RemoveRoute(r1, e.dst, table)
  }

  method ApplyRuleTo(manager: RouteManager, rule: RouteRule, table: nat) returns (r: Result<()>)
    modifies manager`kernel
    ensures (manager.View(), r) == ApplyRule(old(manager.View()), rule, table)
  {
    var dst := GetDestination(rule);
    if dst.Err? { return Err(dst.error); }
    r := manager.AddPolicyRuleTo(Entry(dst.value, table, rule.priority));
    if r.Err? { return; }
    r := manager.AddRouteTo(Entry(dst.value, table, rule.priority), rule.via);
  }

  method RemoveRuleFrom(manager: RouteManager, rule: RouteRule, table: nat) returns (r: Result<()>)
    modifies manager`kernel
    ensures (manager.View(), r) == RemoveRule(old(manager.View()), rule, table)
  {
    var dst := GetDestination(rule);
    if dst.Err? { return Err(dst.error); }
    r := manager.RemovePolicyRuleFrom(Entry(dst.value, table, rule.priority));
    if r.Err? { return; }
    r := manager.RemoveRouteFrom(dst.value, table);
  }
}
