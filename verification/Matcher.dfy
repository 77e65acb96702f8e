/** Destination matching and the choice of the best rule (src/engine/matcher.rs). */
module Matcher {
  import opened Wrappers
  import opened Net
  import opened Config

  datatype Destination = DestIp(ip: IpAddr) | DestDomain(name: string)

  predicate EndsWith(s: string, suffix: string) {
    |suffix| <= |s| && s[|s| - |suffix|..] == suffix
  }

  predicate MatchesWildcard(pattern: string, domain: string) {
    if pattern == "*" then true
    else if StripsPrefix(pattern) then
      |domain| > |pattern[1..]| && EndsWith(domain, pattern[1..])
    else if StripsSuffix(pattern) then
      |domain| > |pattern[..|pattern| - 1]| && pattern[..|pattern| - 1] <= domain
    else false
  }

  predicate RuleMatches(rule: RouteRule, dest: Destination) {
    match (rule.matchOn, dest)
    case (Cidr(cidr), DestIp(ip)) => Contains(cidr, ip)
    case (Ip(ruleIp), DestIp(ip)) => ruleIp == ip
    case (Domain(domain), DestDomain(name)) => domain == name
    case (DomainPattern(pattern), DestDomain(name)) => MatchesWildcard(pattern, name)
    case _ => false
  }

  /** w put in place of the pattern's star at position k. */
  function Substitute(pattern: string, k: nat, w: string): string
    requires k < |pattern|
  {
    pattern[..k] + w + pattern[k + 1..]
  }

  /** An accepted pattern matches exactly the domains got by putting a nonempty string in
      place of its star, and the bare star matches every domain. */
  lemma WildcardsAreGlobs(pattern: string, k: nat, domain: string)
    requires ValidateDomainPattern(pattern).Ok? && OnlyStarAt(pattern, k)
    ensures MatchesWildcard(pattern, domain) <==>
            exists w: string :: (pattern == "*" || w != "") && domain == Substitute(pattern, k, w)
  {
    AcceptedPatterns(pattern);
    var n := |domain| - (|pattern| - 1);
    if MatchesWildcard(pattern, domain) {
      var w := if k == 0 then domain[..n] else domain[k..];
      assert domain == Substitute(pattern, k, w);
    }
    if w: string :| (pattern == "*" || w != "") && domain == Substitute(pattern, k, w) {
      if k == 0 {
        assert domain[n..] == pattern[1..];
      } else {
        assert pattern[..|pattern| - 1] <= domain;
      }
    }
  }

  /** w in place of a star at the front, or at the end. */
  function FillFront(pattern: string, w: string): string
    requires pattern != ""
  {
    w + pattern[1..]
  }

  function FillEnd(pattern: string, w: string): string
    requires pattern != ""
  {
    pattern[..|pattern| - 1] + w
  }

  /** Any pattern, accepted or not: a star at its front or else at its end stands for a nonempty
      string, the bare star for every string, and other patterns match nothing. */
  lemma WildcardsByParts(pattern: string, domain: string)
    ensures MatchesWildcard(pattern, domain) <==>
            || pattern == "*"
            || (pattern != "" && pattern[0] == '*' &&
                exists w: string :: w != "" && domain == FillFront(pattern, w))
            || (pattern != "" && pattern[0] != '*' && pattern[|pattern| - 1] == '*' &&
                exists w: string :: w != "" && domain == FillEnd(pattern, w))
  {
    if pattern != "" && pattern != "*" {
      var n := |domain| - (|pattern| - 1);
      if pattern[0] == '*' {
        if MatchesWildcard(pattern, domain) {
          assert domain == FillFront(pattern, domain[..n]);
        }
        if w: string :| w != "" && domain == FillFront(pattern, w) {
          assert domain[n..] == pattern[1..];
        }
      } else if pattern[|pattern| - 1] == '*' {
        if MatchesWildcard(pattern, domain) {
          assert domain == FillEnd(pattern, domain[|pattern| - 1..]);
        }
        if w: string :| w != "" && domain == FillEnd(pattern, w) {
          assert pattern[..|pattern| - 1] <= domain;
        }
      }
    }
  }

  /** What each kind of rule matches: a network its interval of addresses, an address itself, a
      domain the equal name, a pattern the names got by filling in its star. No rule for
      addresses matches a domain, and no rule for domains an address. */
  lemma RulesMatchByKind(rule: RouteRule, dest: Destination)
    ensures rule.matchOn.Cidr? ==>
              (RuleMatches(rule, dest) <==>
               dest.DestIp? && var n := rule.matchOn.cidr;
               dest.ip.family == n.family && First(n).bits <= dest.ip.bits < Past(n))
    ensures rule.matchOn.Ip? ==> (RuleMatches(rule, dest) <==> dest == DestIp(rule.matchOn.ip))
    ensures rule.matchOn.Domain? ==> (RuleMatches(rule, dest) <==> dest == DestDomain(rule.matchOn.domain))
    ensures rule.matchOn.DomainPattern? ==>
              (RuleMatches(rule, dest) <==>
               dest.DestDomain? && var p := rule.matchOn.pattern;
               || p == "*"
               || (p != "" && p[0] == '*' && exists w: string :: w != "" && dest.name == FillFront(p, w))
               || (p != "" && p[0] != '*' && p[|p| - 1] == '*' &&
                   exists w: string :: w != "" && dest.name == FillEnd(p, w)))
  {
    if rule.matchOn.Cidr? && dest.DestIp? {
      ContainsIsInterval(rule.matchOn.cidr, dest.ip);
    }
    if rule.matchOn.DomainPattern? && dest.DestDomain? {
      WildcardsByParts(rule.matchOn.pattern, dest.name);
    }
  }

  /** rules[i] has the least priority value among the matching rules and comes first. */
  ghost predicate IsFirstBest(rules: seq<RouteRule>, dest: Destination, i: nat) {
    && i < |rules| && RuleMatches(rules[i], dest)
    && forall j :: 0 <= j < |rules| && RuleMatches(rules[j], dest) ==>
         rules[i].priority <= rules[j].priority && (j < i ==> rules[i].priority < rules[j].priority)
  }

  /** What find_direct_match promises: the first best rule, unless its priority is u32::MAX. */
  ghost predicate IsDirectMatch(rules: seq<RouteRule>, dest: Destination, best: Option<RouteRule>) {
    match best
    case Some(rule) => rule.priority < U32_MAX && exists i: nat :: IsFirstBest(rules, dest, i) && rules[i] == rule
    case None => forall j :: 0 <= j < |rules| && RuleMatches(rules[j], dest) ==> rules[j].priority == U32_MAX
  }

  method FindDirectMatch(dest: Destination, rules: seq<RouteRule>) returns (best: Option<RouteRule>)
    ensures IsDirectMatch(rules, dest, best)
  {
    best := None;
    var bestPriority := U32_MAX;
    ghost var at: nat := 0;
    for n := 0 to |rules|
      invariant best.Some? ==> bestPriority == best.value.priority < U32_MAX
      invariant best.Some? ==> at < n && IsFirstBest(rules[..n], dest, at) && rules[at] == best.value
      invariant best.None? ==> bestPriority == U32_MAX && IsDirectMatch(rules[..n], dest, None)
    {
      assert rules[..n + 1] == rules[..n] + [rules[n]];
      if RuleMatches(rules[n], dest) && rules[n].priority < bestPriority {
        best, bestPriority, at := Some(rules[n]), rules[n].priority, n;
      }
    }
    assert rules[..|rules|] == rules;
  }

  /** The answer is determined: two results that satisfy the promise are one. */
  lemma DirectMatchIsUnique(rules: seq<RouteRule>, dest: Destination, a: Option<RouteRule>, b: Option<RouteRule>)
    requires IsDirectMatch(rules, dest, a) && IsDirectMatch(rules, dest, b)
    ensures a == b
  {
    if a.Some? {
      var i: nat :| IsFirstBest(rules, dest, i) && rules[i] == a.value;
      if b.Some? {
        var j: nat :| IsFirstBest(rules, dest, j) && rules[j] == b.value;
        assert i == j;
      }
    }
  }

  /** The stable sort that orders all matches; equal priorities keep their order. */
  function SortByPriority(s: seq<RouteRule>): seq<RouteRule> {
    if s == [] then [] else InsertByPriority(s[0], SortByPriority(s[1..]))
  }

  function InsertByPriority(rule: RouteRule, s: seq<RouteRule>): seq<RouteRule> {
    if s == [] || rule.priority <= s[0].priority then [rule] + s
    else [s[0]] + InsertByPriority(rule, s[1..])
  }

  ghost predicate Sorted(s: seq<RouteRule>) {
    forall i, j :: 0 <= i < j < |s| ==> s[i].priority <= s[j].priority
  }

  function WithPriority(s: seq<RouteRule>, p: U32): seq<RouteRule> {
    if s == [] then []
    else (if s[0].priority == p then [s[0]] else []) + WithPriority(s[1..], p)
  }

  lemma {:induction false} InsertKeepsElements(rule: RouteRule, s: seq<RouteRule>)
    ensures multiset(InsertByPriority(rule, s)) == multiset(s) + multiset{rule}
  {
    if s != [] && s[0].priority < rule.priority {
      InsertKeepsElements(rule, s[1..]);
      assert s == [s[0]] + s[1..];
    }
  }

  lemma {:induction false} InsertKeepsSorted(rule: RouteRule, s: seq<RouteRule>)
    requires Sorted(s)
    ensures Sorted(InsertByPriority(rule, s))
  {
    if s != [] && s[0].priority < rule.priority {
      InsertKeepsSorted(rule, s[1..]);
      InsertKeepsElements(rule, s[1..]);
      var rest := InsertByPriority(rule, s[1..]);
      forall k | 0 <= k < |rest| ensures s[0].priority <= rest[k].priority {
        assert rest[k] in multiset(rest);
        assert rest[k] == rule || rest[k] in s[1..];
      }
    }
  }

  lemma {:induction false} InsertKeepsClass(rule: RouteRule, s: seq<RouteRule>, p: U32)
    ensures WithPriority(InsertByPriority(rule, s), p) == WithPriority([rule] + s, p)
  {
    assert ([rule] + s)[1..] == s;
    if s != [] && s[0].priority < rule.priority {
      InsertKeepsClass(rule, s[1..], p);
      assert ([rule] + s[1..])[1..] == s[1..];
      assert ([s[0]] + InsertByPriority(rule, s[1..]))[1..] == InsertByPriority(rule, s[1..]);
    }
  }

  /** The sort is sorted, a permutation, and stable: each priority class keeps its order. */
  lemma {:induction false} SortIsStable(s: seq<RouteRule>, p: U32)
    ensures Sorted(SortByPriority(s))
    ensures multiset(SortByPriority(s)) == multiset(s)
    ensures WithPriority(SortByPriority(s), p) == WithPriority(s, p)
  {
    if s != [] {
      SortIsStable(s[1..], p);
      InsertKeepsElements(s[0], SortByPriority(s[1..]));
      InsertKeepsSorted(s[0], SortByPriority(s[1..]));
      InsertKeepsClass(s[0], SortByPriority(s[1..]), p);
      assert s == [s[0]] + s[1..];
      assert ([s[0]] + SortByPriority(s[1..]))[1..] == SortByPriority(s[1..]);
    }
  }

  function Matching(rules: seq<RouteRule>, dest: Destination): seq<RouteRule> {
    if rules == [] then []
    else (if RuleMatches(rules[0], dest) then [rules[0]] else []) + Matching(rules[1..], dest)
  }

  /** rules appended one by one when they match and are not there yet. */
  function AddMatching(found: seq<RouteRule>, rules: seq<RouteRule>, dest: Destination): seq<RouteRule>
    decreases |rules|
  {
    if rules == [] then found
    else
      AddMatching(if RuleMatches(rules[0], dest) && rules[0] !in found then found + [rules[0]] else found,
                  rules[1..], dest)
  }

  function AddResolved(found: seq<RouteRule>, rules: seq<RouteRule>, addrs: seq<IpAddr>): seq<RouteRule>
    decreases |addrs|
  {
    if addrs == [] then found
    else AddResolved(AddMatching(found, rules, DestIp(addrs[0])), rules, addrs[1..])
  }

  /** The addresses the DNS step works on: none for an IP destination or without a resolver. */
  function Resolved(dest: Destination, answer: Option<seq<IpAddr>>): seq<IpAddr> {
    if dest.DestDomain? && answer.Some? then answer.value else []
  }

  function AllMatching(rules: seq<RouteRule>, dest: Destination, answer: Option<seq<IpAddr>>): seq<RouteRule> {
    SortByPriority(AddResolved(Matching(rules, dest), rules, Resolved(dest, answer)))
  }

  method CollectMatching(found: seq<RouteRule>, rules: seq<RouteRule>, dest: Destination)
    returns (more: seq<RouteRule>)
    ensures more == AddMatching(found, rules, dest)
  {
    more := found;
    for n := 0 to |rules|
      invariant AddMatching(found, rules, dest) == AddMatching(more, rules[n..], dest)
    {
      if RuleMatches(rules[n], dest) && rules[n] !in more {
        more := more + [rules[n]];
      }
    }
  }

  method FindAllMatchingRules(dest: Destination, rules: seq<RouteRule>, resolver: Option<Result<seq<IpAddr>>>)
    returns (r: Result<seq<RouteRule>>)
    ensures r.Err? <==> dest.DestDomain? && resolver.Some? && resolver.value.Err?
    ensures r.Err? ==> r.error == resolver.value.error
    ensures r.Ok? ==>
              var answer := if resolver.Some? && resolver.value.Ok? then Some(resolver.value.value) else None;
              r.value == AllMatching(rules, dest, answer)
  {
    var matches: seq<RouteRule> := [];
    for n := 0 to |rules|
      invariant matches + Matching(rules[n..], dest) == Matching(rules, dest)
    {
      if RuleMatches(rules[n], dest) {
        matches := matches + [rules[n]];
      }
    }
    assert matches + [] == matches;
    if dest.DestDomain? && resolver.Some? {
      if resolver.value.Err? {
        return Err(resolver.value.error);
      }
      var addrs := resolver.value.value;
      ghost var direct := matches;
      for n := 0 to |addrs|
        invariant AddResolved(direct, rules, addrs) == AddResolved(matches, rules, addrs[n..])
      {
        matches := CollectMatching(matches, rules, DestIp(addrs[n]));
      }
    }
    r := Ok(SortByPriority(matches));
  }

  /** The outcome the domain path promises for one resolver answer. */
  ghost predicate IsBestMatch(rules: seq<RouteRule>, dest: Destination, addrs: seq<IpAddr>, best: Option<RouteRule>)
    decreases |addrs|
  {
    if IsDirectMatch(rules, dest, None) then
      if addrs == [] then best.None?
      else IsBestMatch(rules, DestIp(addrs[0]), addrs[1..], best)
    else IsDirectMatch(rules, dest, best)
  }

  method FindMatchingRule(dest: Destination, rules: seq<RouteRule>, resolver: Option<Result<seq<IpAddr>>>)
    returns (r: Result<Option<RouteRule>>)
    ensures r.Err? <==> dest.DestDomain? && resolver.Some? && resolver.value.Err? && IsDirectMatch(rules, dest, None)
    ensures r.Err? ==> r.error == resolver.value.error
    ensures r.Ok? ==>
              var known := dest.DestDomain? && resolver.Some? && resolver.value.Ok?;
              var addrs := if known then resolver.value.value else [];
              IsBestMatch(rules, dest, addrs, r.value)
  {
    var direct := FindDirectMatch(dest, rules);
    if direct.Some? {
      DirectMatchIsNotNone(rules, dest, direct);
      return Ok(direct);
    }
    if dest.DestDomain? && resolver.Some? {
      if resolver.value.Err? {
        return Err(resolver.value.error);
      }
      var addrs := resolver.value.value;
      ghost var last := dest;
      for n := 0 to |addrs|
        invariant IsDirectMatch(rules, last, None)
        invariant forall best :: IsBestMatch(rules, last, addrs[n..], best) ==> IsBestMatch(rules, dest, addrs, best)
      {
        var found := FindDirectMatch(DestIp(addrs[n]), rules);
        assert addrs[n..][1..] == addrs[n + 1..];
        if found.Some? {
          DirectMatchIsNotNone(rules, DestIp(addrs[n]), found);
          assert IsBestMatch(rules, last, addrs[n..], found);
          return Ok(found);
        }
        last := DestIp(addrs[n]);
      }
    }
    r := Ok(None);
  }

  lemma DirectMatchIsNotNone(rules: seq<RouteRule>, dest: Destination, best: Option<RouteRule>)
    requires best.Some? && IsDirectMatch(rules, dest, best)
    ensures !IsDirectMatch(rules, dest, None)
  {
  }

  lemma {:induction false} MatchingMembers(rules: seq<RouteRule>, dest: Destination, r: RouteRule)
    ensures r in Matching(rules, dest) <==> r in rules && RuleMatches(r, dest)
  {
    if rules != [] {
      MatchingMembers(rules[1..], dest, r);
      assert rules == [rules[0]] + rules[1..];
    }
  }

  lemma {:induction false} AddMatchingMembers(found: seq<RouteRule>, rules: seq<RouteRule>, dest: Destination,
      r: RouteRule)
    ensures r in AddMatching(found, rules, dest) <==> r in found || (r in rules && RuleMatches(r, dest))
    decreases |rules|
  {
    if rules != [] {
      var more := if RuleMatches(rules[0], dest) && rules[0] !in found then found + [rules[0]] else found;
      AddMatchingMembers(more, rules[1..], dest, r);
      assert rules == [rules[0]] + rules[1..];
    }
  }

  /** r matches one of the addresses. */
  ghost predicate MatchesSome(r: RouteRule, addrs: seq<IpAddr>) {
    exists a :: a in addrs && RuleMatches(r, DestIp(a))
  }

  lemma {:induction false} AddResolvedMembers(found: seq<RouteRule>, rules: seq<RouteRule>, addrs: seq<IpAddr>,
      r: RouteRule)
    ensures r in AddResolved(found, rules, addrs) <==> r in found || (r in rules && MatchesSome(r, addrs))
    decreases |addrs|
  {
    if addrs != [] {
      AddMatchingMembers(found, rules, DestIp(addrs[0]), r);
      AddResolvedMembers(AddMatching(found, rules, DestIp(addrs[0])), rules, addrs[1..], r);
      assert addrs == [addrs[0]] + addrs[1..];
    }
  }

  /** r matches an address that the resolver gave for the domain asked for. */
  ghost predicate MatchesAnswer(r: RouteRule, dest: Destination, answer: Option<seq<IpAddr>>) {
    exists a :: dest.DestDomain? && answer.Some? && a in answer.value && RuleMatches(r, DestIp(a))
  }

  lemma MatchesAnswerIsResolved(r: RouteRule, dest: Destination, answer: Option<seq<IpAddr>>)
    ensures MatchesAnswer(r, dest, answer) <==> MatchesSome(r, Resolved(dest, answer))
  {
    if MatchesSome(r, Resolved(dest, answer)) {
      var a :| a in Resolved(dest, answer) && RuleMatches(r, DestIp(a));
      assert a in answer.value;
    }
  }

  /** All matches: sorted, and exactly the rules that match the destination or an address. */
  lemma AllMatchingIsExact(rules: seq<RouteRule>, dest: Destination, answer: Option<seq<IpAddr>>, r: RouteRule)
    ensures Sorted(AllMatching(rules, dest, answer))
    ensures r in AllMatching(rules, dest, answer) <==>
            r in rules && (RuleMatches(r, dest) || MatchesAnswer(r, dest, answer))
  {
    MatchesAnswerIsResolved(r, dest, answer);
    var found := AddResolved(Matching(rules, dest), rules, Resolved(dest, answer));
    SortIsStable(found, 0);
    assert r in SortByPriority(found) <==> r in multiset(SortByPriority(found));
    assert r in found <==> r in multiset(found);
    AddResolvedMembers(Matching(rules, dest), rules, Resolved(dest, answer), r);
    MatchingMembers(rules, dest, r);
  }

  lemma {:induction false} AddMatchingCounts(found: seq<RouteRule>, rules: seq<RouteRule>, dest: Destination,
      r: RouteRule)
    ensures multiset(AddMatching(found, rules, dest))[r] ==
            if r in found then multiset(found)[r] else if r in rules && RuleMatches(r, dest) then 1 else 0
    ensures found <= AddMatching(found, rules, dest)
    decreases |rules|
  {
    if rules != [] {
      var more := if RuleMatches(rules[0], dest) && rules[0] !in found then found + [rules[0]] else found;
      assert rules == [rules[0]] + rules[1..];
      AddMatchingCounts(more, rules[1..], dest, r);
    }
  }

  lemma {:induction false} AddResolvedCounts(found: seq<RouteRule>, rules: seq<RouteRule>, addrs: seq<IpAddr>,
      r: RouteRule)
    ensures multiset(AddResolved(found, rules, addrs))[r] ==
            if r in found then multiset(found)[r] else if r in rules && MatchesSome(r, addrs) then 1 else 0
    ensures found <= AddResolved(found, rules, addrs)
    decreases |addrs|
  {
    if addrs != [] {
      var more := AddMatching(found, rules, DestIp(addrs[0]));
      assert addrs == [addrs[0]] + addrs[1..];
      AddMatchingCounts(found, rules, DestIp(addrs[0]), r);
      AddMatchingMembers(found, rules, DestIp(addrs[0]), r);
      AddResolvedCounts(more, rules, addrs[1..], r);
    }
  }

  lemma {:induction false} MatchingCounts(rules: seq<RouteRule>, dest: Destination, r: RouteRule)
    ensures multiset(Matching(rules, dest))[r] == if RuleMatches(r, dest) then multiset(rules)[r] else 0
  {
    if rules != [] {
      MatchingCounts(rules[1..], dest, r);
      assert rules == [rules[0]] + rules[1..];
    }
  }

  /** How often a rule is among all matches: as often as it is configured if it matches the
      destination itself, once if it matches only resolved addresses, however many. */
  lemma AllMatchingCounts(rules: seq<RouteRule>, dest: Destination, answer: Option<seq<IpAddr>>, r: RouteRule)
    ensures multiset(AllMatching(rules, dest, answer))[r] ==
            if RuleMatches(r, dest) then multiset(rules)[r]
            else if r in rules && MatchesAnswer(r, dest, answer) then 1 else 0
  {
    MatchesAnswerIsResolved(r, dest, answer);
    var direct := Matching(rules, dest);
    SortIsStable(AddResolved(direct, rules, Resolved(dest, answer)), 0);
    AddResolvedCounts(direct, rules, Resolved(dest, answer), r);
    MatchingCounts(rules, dest, r);
    MatchingMembers(rules, dest, r);
  }

  lemma {:induction false} WithPriorityConcat(a: seq<RouteRule>, b: seq<RouteRule>, p: U32)
    ensures WithPriority(a + b, p) == WithPriority(a, p) + WithPriority(b, p)
  {
    if a == [] {
      assert a + b == b;
    } else {
      assert (a + b)[1..] == a[1..] + b;
      WithPriorityConcat(a[1..], b, p);
    }
  }

  lemma {:induction false} AddResolvedConcat(found: seq<RouteRule>, rules: seq<RouteRule>, a: seq<IpAddr>,
      b: seq<IpAddr>)
    ensures AddResolved(found, rules, a + b) == AddResolved(AddResolved(found, rules, a), rules, b)
    decreases |a|
  {
    if a == [] {
      assert a + b == b;
    } else {
      assert (a + b)[0] == a[0] && (a + b)[1..] == a[1..] + b;
      AddResolvedConcat(AddMatching(found, rules, DestIp(a[0])), rules, a[1..], b);
    }
  }

  lemma SortKeepsClass(s: seq<RouteRule>, p: U32)
    ensures WithPriority(SortByPriority(s), p) == WithPriority(s, p)
  {
    SortIsStable(s, p);
  }

  lemma SortedPrefix(s: seq<RouteRule>, all: seq<RouteRule>, p: U32)
    requires s <= all
    ensures WithPriority(SortByPriority(s), p) <= WithPriority(SortByPriority(all), p)
    ensures WithPriority(s, p) <= WithPriority(SortByPriority(all), p)
  {
    SortKeepsClass(s, p);
    SortKeepsClass(all, p);
    assert all == s + all[|s|..];
    WithPriorityConcat(s, all[|s|..], p);
  }

  /** Among rules of one priority those that match the domain itself come first, in their order,
      and then those of the earlier addresses. */
  lemma EarlierMatchesComeFirst(rules: seq<RouteRule>, name: string, a: seq<IpAddr>, b: seq<IpAddr>, p: U32)
    ensures WithPriority(Matching(rules, DestDomain(name)), p) <=
            WithPriority(AllMatching(rules, DestDomain(name), Some(a)), p)
    ensures WithPriority(AllMatching(rules, DestDomain(name), Some(a)), p) <=
            WithPriority(AllMatching(rules, DestDomain(name), Some(a + b)), p)
  {
    var direct := Matching(rules, DestDomain(name));
    var first := AddResolved(direct, rules, a);
    AddResolvedConcat(direct, rules, a, b);
    AddResolvedExtends(direct, rules, a);
    AddResolvedExtends(first, rules, b);
    SortedPrefix(direct, first, p);
    SortedPrefix(first, AddResolved(first, rules, b), p);
  }

  lemma AddResolvedExtends(found: seq<RouteRule>, rules: seq<RouteRule>, addrs: seq<IpAddr>)
    ensures found <= AddResolved(found, rules, addrs)
  {
    AddResolvedCounts(found, rules, addrs, RouteRule("", Domain(""), "", 0));
  }

  /** The domain path by addresses: the direct match if there is one, else the direct match of the
      first address that has one, else none. */
  lemma {:induction false} BestMatchByAddress(rules: seq<RouteRule>, dest: Destination, addrs: seq<IpAddr>,
      best: Option<RouteRule>)
    ensures IsBestMatch(rules, dest, addrs, best) <==>
            if !IsDirectMatch(rules, dest, None) then IsDirectMatch(rules, dest, best)
            else if best.None? then forall a :: a in addrs ==> IsDirectMatch(rules, DestIp(a), None)
            else exists i :: 0 <= i < |addrs| && IsDirectMatch(rules, DestIp(addrs[i]), best)
                             && forall a :: a in addrs[..i] ==> IsDirectMatch(rules, DestIp(a), None)
    decreases |addrs|
  {
    if IsDirectMatch(rules, dest, None) && addrs != [] {
      assert addrs == [addrs[0]] + addrs[1..];
      BestMatchByAddress(rules, DestIp(addrs[0]), addrs[1..], best);
      assert forall i :: 0 < i <= |addrs| ==> addrs[..i] == [addrs[0]] + addrs[1..][..i - 1];
      if best.Some? {
        if i :| 0 <= i < |addrs[1..]| && IsDirectMatch(rules, DestIp(addrs[1..][i]), best)
                && forall a :: a in addrs[1..][..i] ==> IsDirectMatch(rules, DestIp(a), None) {
          assert addrs[i + 1] == addrs[1..][i];
        }
      }
    }
  }

  lemma {:induction false} BestMatchMembers(rules: seq<RouteRule>, dest: Destination, addrs: seq<IpAddr>,
      best: Option<RouteRule>)
    requires IsBestMatch(rules, dest, addrs, best)
    ensures best.Some? ==> best.value in rules && best.value.priority < U32_MAX
                           && (RuleMatches(best.value, dest) || MatchesSome(best.value, addrs))
    ensures best.None? ==>
              forall r :: r in rules && (RuleMatches(r, dest) || MatchesSome(r, addrs)) ==> r.priority == U32_MAX
    decreases |addrs|
  {
    if IsDirectMatch(rules, dest, None) {
      if addrs == [] {
        assert best.None?;
      } else {
        BestMatchMembers(rules, DestIp(addrs[0]), addrs[1..], best);
        assert addrs == [addrs[0]] + addrs[1..];
      }
    } else if best.None? {
      assert false;
    }
  }

  /** The single best answer against the full list, for one resolver answer: it is a member,
      never better than the head, and absent exactly when every member has priority u32::MAX. */
  lemma BestAgainstAll(rules: seq<RouteRule>, dest: Destination, answer: Option<seq<IpAddr>>, best: Option<RouteRule>)
    requires IsBestMatch(rules, dest, if dest.DestDomain? && answer.Some? then answer.value else [], best)
    ensures var all := AllMatching(rules, dest, answer);
            && (best.Some? ==> best.value in all && all[0].priority <= best.value.priority)
            && (best.None? <==> forall r :: r in all ==> r.priority == U32_MAX)
  {
    var all := AllMatching(rules, dest, answer);
    BestMatchMembers(rules, dest, Resolved(dest, answer), best);
    forall r ensures r in all <==> r in rules && (RuleMatches(r, dest) || MatchesSome(r, Resolved(dest, answer))) {
      MatchesAnswerIsResolved(r, dest, answer);
      AllMatchingIsExact(rules, dest, answer, r);
    }
    if best.Some? {
      AllMatchingIsExact(rules, dest, answer, best.value);
      assert best.value in all;
    }
  }

  lemma {:induction false} SortedHeadIsFirstBest(rules: seq<RouteRule>, dest: Destination) returns (i: nat)
    requires SortByPriority(Matching(rules, dest)) != []
    ensures IsFirstBest(rules, dest, i) && rules[i] == SortByPriority(Matching(rules, dest))[0]
  {
    var rest := SortByPriority(Matching(rules[1..], dest));
    if RuleMatches(rules[0], dest) {
      assert Matching(rules, dest)[1..] == Matching(rules[1..], dest);
    } else {
      assert Matching(rules, dest) == Matching(rules[1..], dest);
    }
    if rest == [] {
      forall j | 0 < j < |rules| ensures !RuleMatches(rules[j], dest) {
        MatchingMembers(rules[1..], dest, rules[j]);
        SortIsStable(Matching(rules[1..], dest), 0);
        assert rules[j] == rules[1..][j - 1];
        assert |multiset(rest)| == 0;
      }
      i := 0;
    } else {
      var k := SortedHeadIsFirstBest(rules[1..], dest);
      assert forall j :: 0 < j < |rules| ==> rules[j] == rules[1..][j - 1];
      i := if RuleMatches(rules[0], dest) && rules[0].priority <= rest[0].priority then 0 else k + 1;
    }
  }

  /** The single pass refines the sort: for an IP destination it returns the head of all
      matches, except that a head of priority u32::MAX is not returned. */
  lemma SinglePassRefinesSort(rules: seq<RouteRule>, ip: IpAddr, answer: Option<seq<IpAddr>>, best: Option<RouteRule>)
    requires IsDirectMatch(rules, DestIp(ip), best)
    ensures var all := AllMatching(rules, DestIp(ip), answer);
            best == if all == [] || all[0].priority == U32_MAX then None else Some(all[0])
  {
    var dest := DestIp(ip);
    var all := AllMatching(rules, dest, answer);
    if all == [] {
      if best.Some? {
        AllMatchingIsExact(rules, dest, answer, best.value);
      }
    } else {
      var i := SortedHeadIsFirstBest(rules, dest);
      DirectMatchIsUnique(rules, dest, best, if all[0].priority == U32_MAX then None else Some(all[0]));
    }
  }
}
