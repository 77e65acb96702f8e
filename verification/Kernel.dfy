/** The kernel's policy-rule and route tables, and the route manager that drives them
    (src/router/manager.rs). */
module Kernel {
  import opened Wrappers
  import opened Net
  import opened Config
  import opened Sets

  /** One line of either table: rank is the preference of a policy rule, the metric of a route. */
  datatype Entry = Entry(dst: IpNetwork, table: nat, rank: U32)

  datatype Call = AddRuleCall | AddRouteCall | DelRuleCall | DelRouteCall | ListCall

  /** calls counts the requests made so far and fault says which of them the kernel refuses;
      a statement for all fault functions is a statement for all failures. missingRule and
      missingRoute are the errnos it answers to the deletion of an absent entry. */
  datatype KernelState = KernelState(
    rules: set<Entry>,
    routes: map<Entry, string>,
    calls: nat,
    fault: (nat, Call) -> bool,
    missingRule: nat,
    missingRoute: nat)

  /** What the two tables hold that the engine did not put there, entries of earlier runs say. */
  datatype Leftovers = Leftovers(rules: set<Entry>, routes: map<Entry, string>)

  const NOTHING_LEFT: Leftovers := Leftovers({}, map[])

  datatype Reply = Done | Errno(code: nat)

  const EPERM: nat := 1
  const ENOENT: nat := 2
  const ENXIO: nat := 6
  const EEXIST: nat := 17

  predicate IsNoSuchEntry(code: nat) {
    code == ENOENT || code == ENXIO
  }

  function AddRule(k: KernelState, e: Entry): (KernelState, Reply) {
    var k' := k.(calls := k.calls + 1);
    if k.fault(k.calls, AddRuleCall) then (k', Errno(EPERM))
    else if e in k.rules then (k', Errno(EEXIST))
    else (k'.(rules := k.rules + {e}), Done)
  }

  /** An entry of the same destination, table and metric is kept as it was. */
  function AddRoute(k: KernelState, e: Entry, via: string): (KernelState, Reply) {
    var k' := k.(calls := k.calls + 1);
    if k.fault(k.calls, AddRouteCall) then (k', Errno(EPERM))
    else if e in k.routes then (k', Errno(EEXIST))
    else (k'.(routes := k.routes[e := via]), Done)
  }

  function DelRule(k: KernelState, e: Entry): (KernelState, Reply) {
    var k' := k.(calls := k.calls + 1);
    if k.fault(k.calls, DelRuleCall) then (k', Errno(EPERM))
    else if e !in k.rules then (k', Errno(k.missingRule))
    else (k'.(rules := k.rules - {e}), Done)
  }

  predicate IsLowest(routes: map<Entry, string>, dst: IpNetwork, table: nat, e: Entry) {
    && e in routes && e.dst == dst && e.table == table
    && forall f :: f in routes && f.dst == dst && f.table == table ==> e.rank <= f.rank
  }

  predicate HasRouteTo(routes: map<Entry, string>, dst: IpNetwork, table: nat) {
    exists e :: e in routes && e.dst == dst && e.table == table
  }

  lemma LowestExists(routes: map<Entry, string>, dst: IpNetwork, table: nat)
    requires HasRouteTo(routes, dst, table)
    ensures exists e :: IsLowest(routes, dst, table, e)
    decreases routes.Keys
  {
    var e :| e in routes && e.dst == dst && e.table == table;
    if f :| f in routes && f.dst == dst && f.table == table && f.rank < e.rank {
      var fewer := routes - {e};
      assert f in fewer;
      LowestExists(fewer, dst, table);
      var low :| IsLowest(fewer, dst, table, low);
      assert IsLowest(routes, dst, table, low);
    } else {
      assert IsLowest(routes, dst, table, e);
    }
  }

  function LowestRoute(routes: map<Entry, string>, dst: IpNetwork, table: nat): (e: Entry)
    requires HasRouteTo(routes, dst, table)
    ensures IsLowest(routes, dst, table, e)
  {
    LowestExists(routes, dst, table);
    var e :| IsLowest(routes, dst, table, e);
    e
  }

  /** Deletion by destination and table alone takes the first match, the lowest metric. */
  function DelRouteTo(k: KernelState, dst: IpNetwork, table: nat): (KernelState, Reply) {
    var k' := k.(calls := k.calls + 1);
    if k.fault(k.calls, DelRouteCall) then (k', Errno(EPERM))
    else if !HasRouteTo(k.routes, dst, table) then (k', Errno(k.missingRoute))
    else (k'.(routes := k.routes - {LowestRoute(k.routes, dst, table)}), Done)
  }

  /** The value of a route manager together with the kernel it drives. */
  datatype RouterState = RouterState(base: nat, dryRun: bool, kernel: KernelState) {
    /** Not a dry run, and a base that was accepted. */
    predicate CanFlush() {
      !dryRun && base <= IPV4_TABLE_END
    }
  }

  const IPV4_TABLE_START: nat := 100
  const IPV4_TABLE_END: nat := 199
  const IPV6_TABLE_START: nat := 200
  const MAX_TABLE_ID: nat := 255

  /** The bases a route manager takes. */
  predicate AcceptsBase(base: nat) {
    IPV4_TABLE_START <= base <= IPV4_TABLE_END
  }

  /** Validation takes bases 100 to 252, and the manager takes those of them up to 199, so a base
      of 200 passes validation and then stops the daemon from starting. */
  lemma ValidBaseIsAccepted(global: GlobalConfig)
    ensures ValidateGlobal(global).Ok? <==>
            global.monitorInterval != 0 && global.knownLogLevel && 100 <= global.tableIdStart <= 252
    ensures AcceptsBase(global.tableIdStart) <==> 100 <= global.tableIdStart <= 199
    ensures ValidateGlobal(global).Err? ==> ValidateGlobal(global).error == ConfigError
    ensures var high := GlobalConfig(5, true, 200);
            ValidateGlobal(high).Ok? && !AcceptsBase(high.tableIdStart)
  {
  }

  type Index = n: nat | n < 256

  function TableIdV4(base: nat, index: Index): nat { base + index }

  function TableIdToU8(table: nat): Result<nat> {
    if table > MAX_TABLE_ID then Err(RouteError) else Ok(table)
  }

  /** EEXIST on an addition counts as success. */
  function AddResult(reply: Reply): Result<()> {
    if reply.Done? || reply.code == EEXIST then Ok(()) else Err(RouteError)
  }

  /** ENOENT and ENXIO on a deletion count as success. */
  function DelResult(reply: Reply): Result<()> {
    if reply.Done? || IsNoSuchEntry(reply.code) then Ok(()) else Err(RouteError)
  }

  /** The errnos in numbers: 17 on an addition, 2 and 6 on a deletion are success. */
  lemma AcceptedErrnos(code: nat)
    ensures AddResult(Done) == Ok(()) && AddResult(Errno(code)) == if code == 17 then Ok(()) else Err(RouteError)
    ensures DelResult(Done) == Ok(()) && DelResult(Errno(code)) == if code in {2, 6} then Ok(()) else Err(RouteError)
  {
  }

  function AddPolicyRule(r: RouterState, e: Entry): (RouterState, Result<()>) {
    if r.dryRun then (r, Ok(()))
    else var (k, reply) := AddRule(r.kernel, e); (r.(kernel := k), AddResult(reply))
  }

  function AddRouteVia(r: RouterState, e: Entry, via: string): (RouterState, Result<()>) {
    if r.dryRun then (r, Ok(()))
    else var (k, reply) := AddRoute(r.kernel, e, via); (r.(kernel := k), AddResult(reply))
  }

  /** The deletion message carries the table in one byte, so a larger table is refused. */
  function RemovePolicyRule(r: RouterState, e: Entry): (RouterState, Result<()>) {
    if r.dryRun then (r, Ok(()))
    else if TableIdToU8(e.table).Err? then (r, Err(RouteError))
    else var (k, reply) := DelRule(r.kernel, e); (r.(kernel := k), DelResult(reply))
  }

  function RemoveRoute(r: RouterState, dst: IpNetwork, table: nat): (RouterState, Result<()>) {
    if r.dryRun then (r, Ok(()))
    else if TableIdToU8(table).Err? then (r, Err(RouteError))
    else var (k, reply) := DelRouteTo(r.kernel, dst, table); (r.(kernel := k), DelResult(reply))
  }

  /** An addition that is not refused succeeds and leaves the entry there; one that finds it
      changes nothing. */
  lemma AdditionsByErrno(r: RouterState, e: Entry, via: string)
    requires !r.dryRun
    ensures var (s, added) := AddPolicyRule(r, e);
            && added == (if r.kernel.fault(r.kernel.calls, AddRuleCall) then Err(RouteError) else Ok(()))
            && s == r.(kernel := r.kernel.(calls := r.kernel.calls + 1, rules := s.kernel.rules))
            && s.kernel.rules == if added.Ok? then r.kernel.rules + {e} else r.kernel.rules
    ensures var (s, added) := AddRouteVia(r, e, via);
            && added == (if r.kernel.fault(r.kernel.calls, AddRouteCall) then Err(RouteError) else Ok(()))
            && s == r.(kernel := r.kernel.(calls := r.kernel.calls + 1, routes := s.kernel.routes))
            && s.kernel.routes ==
               if added.Ok? && e !in r.kernel.routes then r.kernel.routes[e := via] else r.kernel.routes
  {
  }

  /** A deletion in a table above 255 is refused before any request. Any other that the kernel
      grants takes a policy rule that is there; for one that is not there it succeeds if and only
      if the kernel answers 2 or 6, and nothing changes. */
  lemma RuleRemovalsByErrno(r: RouterState, e: Entry)
    requires !r.dryRun
    ensures var (s, removed) := RemovePolicyRule(r, e);
            if 255 < e.table then (s, removed) == (r, Err(RouteError))
            else
              && s == r.(kernel := r.kernel.(calls := r.kernel.calls + 1, rules := s.kernel.rules))
              && if r.kernel.fault(r.kernel.calls, DelRuleCall) then
                   removed == Err(RouteError) && s.kernel.rules == r.kernel.rules
                 else
                   && s.kernel.rules == r.kernel.rules - {e}
                   && removed == if e in r.kernel.rules || r.kernel.missingRule in {2, 6} then Ok(())
                                 else Err(RouteError)
  {
  }

  /** The same of routes: the one taken is to the destination in the table, and none there has a
      lower metric. */
  lemma RouteRemovalsByErrno(r: RouterState, dst: IpNetwork, table: nat)
    requires !r.dryRun
    ensures var (s, removed) := RemoveRoute(r, dst, table);
            var routes := r.kernel.routes;
            if 255 < table then (s, removed) == (r, Err(RouteError))
            else
              && s == r.(kernel := r.kernel.(calls := r.kernel.calls + 1, routes := s.kernel.routes))
              && if r.kernel.fault(r.kernel.calls, DelRouteCall) then
                   removed == Err(RouteError) && s.kernel.routes == routes
                 else if exists f :: f in routes && f.dst == dst && f.table == table then
                   && removed == Ok(())
                   && exists e :: e in routes && e.dst == dst && e.table == table && s.kernel.routes == routes - {e}
                                  && forall f :: f in routes && f.dst == dst && f.table == table ==> e.rank <= f.rank
                 else
                   && s.kernel.routes == routes
                   && removed == if r.kernel.missingRoute in {2, 6} then Ok(()) else Err(RouteError)
  {
    if HasRouteTo(r.kernel.routes, dst, table) && table <= MAX_TABLE_ID {
      var e := LowestRoute(r.kernel.routes, dst, table);
      assert IsLowest(r.kernel.routes, dst, table, e);
    }
  }

  /** In a dry run all four succeed and nothing is requested. */
  lemma DryRunsSucceed(r: RouterState, e: Entry, via: string)
    requires r.dryRun
    ensures AddPolicyRule(r, e) == AddRouteVia(r, e, via) == (r, Ok(()))
    ensures RemovePolicyRule(r, e) == RemoveRoute(r, e.dst, e.table) == (r, Ok(()))
  {
  }

  /** What a flush of one table leaves when nothing is refused: only IPv4 routes are listed. */
  function FlushedRoutes(routes: map<Entry, string>, table: nat): map<Entry, string> {
    map e | e in routes && !(e.table == table && e.dst.family == V4) :: routes[e]
  }

  function FlushedRules(rules: set<Entry>, table: nat): set<Entry> {
    set e | e in rules && e.table != table
  }

  /** No request is refused from now on. */
  ghost predicate Faultless(k: KernelState) {
    forall n, c :: k.calls <= n ==> !k.fault(n, c)
  }

  /** Nothing is refused, or nothing is requested. */
  ghost predicate NeverRefuses(r: RouterState) {
    r.dryRun || Faultless(r.kernel)
  }

  /** None of the requests numbered from .. until - 1 is refused. */
  ghost predicate QuietBetween(k: KernelState, from: nat, until: nat) {
    forall n, c :: from <= n < until ==> !k.fault(n, c)
  }

  /** k' differs from k only by entries lost and requests made. */
  ghost predicate OnlyLoses(k: KernelState, k': KernelState) {
    && k.calls <= k'.calls
    && k' == k.(rules := k'.rules, routes := k'.routes, calls := k'.calls)
    && k'.rules <= k.rules
    && k'.routes.Keys <= k.routes.Keys
    && forall e :: e in k'.routes ==> k'.routes[e] == k.routes[e]
  }

  /** Only IPv4 routes of this table are lost. */
  ghost predicate LosesRoutesOf(k: KernelState, k': KernelState, table: nat) {
    && OnlyLoses(k, k') && k'.rules == k.rules
    && forall e :: e in k.routes && e !in k'.routes ==> e.table == table && e.dst.family == V4
  }

  /** The listed entries are IPv4 routes of this table that are still there, */
  ghost predicate ListedRoutes(k: KernelState, listed: set<Entry>, table: nat) {
    forall e :: e in listed ==> e in k.routes && e.table == table && e.dst.family == V4
  }

  /** and no other is left. */
  ghost predicate AllListed(k: KernelState, listed: set<Entry>, table: nat) {
    forall e :: e in k.routes && e.table == table && e.dst.family == V4 ==> e in listed
  }

  class RouteManager {
    const base: nat
    const dryRun: bool
    var kernel: KernelState

    function View(): RouterState
      reads this
    {
      RouterState(base, dryRun, kernel)
    }

    constructor (base: nat, dryRun: bool, kernel: KernelState)
      ensures View() == RouterState(base, dryRun, kernel)
    {
      this.base, this.dryRun, this.kernel := base, dryRun, kernel;
    }

    /** Only bases 100 to 199 are accepted; connects says whether the kernel can be reached,
        which a dry run does not ask. */
    static method WithConnection(base: nat, dryRun: bool, connects: bool,
        kernel: KernelState) returns (r: Result<RouteManager>)
      ensures r.Ok? <==> 100 <= base <= 199 && (dryRun || connects)
      ensures r.Err? ==> r.error == if 100 <= base <= 199 then NetworkError else InvalidInput
      ensures r.Ok? ==> fresh(r.value) && r.value.View() == RouterState(base, dryRun, kernel)
    {
      if base < IPV4_TABLE_START || IPV4_TABLE_END < base {
        return Err(InvalidInput);
      }
      if !dryRun && !connects {
        return Err(NetworkError);
      }
      var manager := new RouteManager(base, dryRun, kernel);
      r := Ok(manager);
    }

    method AddPolicyRuleTo(e: Entry) returns (r: Result<()>)
      modifies this`kernel
      ensures (View(), r) == AddPolicyRule(old(View()), e)
    {
      if dryRun { return Ok(()); }
      var (k, reply) := AddRule(kernel, e);
      kernel := k;
      r := AddResult(reply);
    }

    method AddRouteTo(e: Entry, via: string) returns (r: Result<()>)
      modifies this`kernel
      ensures (View(), r) == AddRouteVia(old(View()), e, via)
    {
      if dryRun { return Ok(()); }
      var (k, reply) := AddRoute(kernel, e, via);
      kernel := k;
      r := AddResult(reply);
    }

    method RemovePolicyRuleFrom(e: Entry) returns (r: Result<()>)
      modifies this`kernel
      ensures (View(), r) == RemovePolicyRule(old(View()), e)
    {
      if dryRun { return Ok(()); }
      if TableIdToU8(e.table).Err? { return Err(RouteError); }
      var (k, reply) := DelRule(kernel, e);
      kernel := k;
      r := DelResult(reply);
    }

    method RemoveRouteFrom(dst: IpNetwork, table: nat) returns (r: Result<()>)
      modifies this`kernel
      ensures (View(), r) == RemoveRoute(old(View()), dst, table)
    {
      if dryRun { return Ok(()); }
      if TableIdToU8(table).Err? { return Err(RouteError); }
      var (k, reply) := DelRouteTo(kernel, dst, table);
      kernel := k;
      r := DelResult(reply);
    }

    /** Asks for the next line of a listing, or for its end. */
    method ListNext() returns (ok: bool)
      modifies this`kernel
      ensures ok <==> !old(kernel).fault(old(kernel).calls, ListCall)
      ensures kernel == old(kernel).(calls := old(kernel).calls + 1)
    {
      ok := !kernel.fault(kernel.calls, ListCall);
      kernel := kernel.(calls := kernel.calls + 1);
    }

    /** Lists the table's IPv4 routes and deletes them one at a time, in any order. */
    method FlushTable(table: nat) returns (r: Result<nat>)
      modifies this`kernel
      ensures LosesRoutesOf(old(kernel), kernel, table)
      ensures r.Ok? ==> r.value == |old(kernel.routes)| - |kernel.routes|
      ensures dryRun || MAX_TABLE_ID < table ==> kernel == old(kernel) && (r.Ok? <==> dryRun)
      ensures QuietBetween(old(kernel), old(kernel).calls, kernel.calls) && table <= MAX_TABLE_ID && !dryRun ==>
                r.Ok? && kernel.routes == FlushedRoutes(old(kernel.routes), table)
    {
      if dryRun { return Ok(0); }
      if TableIdToU8(table).Err? { return Err(RouteError); }
      var deleted := 0;
      ghost var refused, size := false, |kernel.routes|;
      var listed := set e | e in kernel.routes && e.table == table && e.dst.family == V4;
      while listed != {}
        invariant LosesRoutesOf(old(kernel), kernel, table)
        invariant ListedRoutes(kernel, listed, table)
        invariant deleted + |kernel.routes| == size
        invariant refused ==> !QuietBetween(old(kernel), old(kernel).calls, kernel.calls)
        invariant !refused ==> AllListed(kernel, listed, table)
        decreases |listed|
      {
        var e :| e in listed;
        var listable, ok := DeleteNextRoute(e, table, listed, old(kernel));
        if !listable { return Err(RouteError); }
        listed := listed - {e};
        if ok {
          deleted := deleted + 1;
        } else {
          refused := true;
        }
      }
      var complete := ListNext();
      if !complete { return Err(RouteError); }
      FlushedWhenNoneLeft(old(kernel), kernel, table);
      r := Ok(deleted);
    }

    /** The listed route is sent back whole, so this one entry goes. */
    method DeleteNextRoute(e: Entry, table: nat, ghost listed: set<Entry>, ghost first: KernelState)
      returns (listable: bool, ok: bool)
      requires LosesRoutesOf(first, kernel, table) && ListedRoutes(kernel, listed, table) && e in listed
      modifies this`kernel
      ensures LosesRoutesOf(first, kernel, table) && old(kernel).calls <= kernel.calls
      ensures ListedRoutes(kernel, listed - {e}, table)
      ensures ok && AllListed(old(kernel), listed, table) ==> AllListed(kernel, listed - {e}, table)
      ensures !listable || !ok ==> !QuietBetween(first, first.calls, kernel.calls)
      ensures |kernel.routes| == |old(kernel.routes)| - if ok then 1 else 0
    {
      listable := ListNext();
      if !listable { return false, false; }
      ok := !kernel.fault(kernel.calls, DelRouteCall);
      RemovingOneEntry(kernel.routes, e);
      kernel := kernel.(routes := if ok then kernel.routes - {e} else kernel.routes, calls := kernel.calls + 1);
    }

    /** Deletes the policy rules that name the table, IPv4 rules first, then IPv6. */
    method FlushTablePolicyRules(table: nat) returns (r: Result<nat>)
      modifies this`kernel
      ensures OnlyLoses(old(kernel), kernel) && kernel.routes == old(kernel.routes)
      ensures forall e :: e in old(kernel.rules) && e !in kernel.rules ==> e.table == table
      ensures r.Ok? ==> r.value == |old(kernel.rules)| - |kernel.rules|
      ensures dryRun || MAX_TABLE_ID < table ==> kernel == old(kernel) && (r.Ok? <==> dryRun)
      ensures QuietBetween(old(kernel), old(kernel).calls, kernel.calls) && table <= MAX_TABLE_ID && !dryRun ==>
                r.Ok? && kernel.rules == FlushedRules(old(kernel.rules), table)
    {
      if dryRun { return Ok(0); }
      if TableIdToU8(table).Err? { return Err(RouteError); }
      var v4 := FlushFamilyRules(table, V4);
      if v4.Err? { return v4; }
      var v6 := FlushFamilyRules(table, V6);
      if v6.Err? { return v6; }
      r := Ok(v4.value + v6.value);
    }

    method FlushFamilyRules(table: nat, family: Family) returns (r: Result<nat>)
      modifies this`kernel
      ensures OnlyLoses(old(kernel), kernel) && kernel.routes == old(kernel.routes)
      ensures forall e :: e in old(kernel.rules) && e !in kernel.rules ==> e.table == table && e.dst.family == family
      ensures r.Ok? ==> r.value == |old(kernel.rules)| - |kernel.rules|
      ensures QuietBetween(old(kernel), old(kernel).calls, kernel.calls) ==>
                r.Ok? && forall e :: e in kernel.rules ==> !(e.table == table && e.dst.family == family)
    {
      var count := 0;
      var listed := set e | e in kernel.rules && e.dst.family == family;
      while listed != {}
        invariant OnlyLoses(old(kernel), kernel) && kernel.routes == old(kernel.routes)
        invariant listed <= kernel.rules
        invariant forall e :: e in listed ==> e.dst.family == family
        invariant forall e :: e in old(kernel.rules) && e !in kernel.rules ==>
                    e.table == table && e.dst.family == family
        invariant count == |old(kernel.rules)| - |kernel.rules|
        invariant QuietBetween(old(kernel), old(kernel).calls, kernel.calls) ==>
                    forall e :: e in kernel.rules && e.table == table && e.dst.family == family ==> e in listed
        decreases |listed|
      {
        var listable := ListNext();
        if !listable { return Err(RouteError); }
        var e :| e in listed;
        listed := listed - {e};
        if e.table == table {
          if kernel.fault(kernel.calls, DelRuleCall) {
            kernel := kernel.(calls := kernel.calls + 1);
          } else {
            kernel := kernel.(rules := kernel.rules - {e}, calls := kernel.calls + 1);
            count := count + 1;
          }
        }
      }
      var complete := ListNext();
      if !complete { return Err(RouteError); }
      r := Ok(count);
    }

    method FlushTableComplete(table: nat) returns (r: Result<nat>)
      modifies this`kernel
      ensures OnlyLoses(old(kernel), kernel)
      ensures forall e :: e in old(kernel.rules) && e !in kernel.rules ==> e.table == table
      ensures forall e :: e in old(kernel.routes) && e !in kernel.routes ==> e.table == table && e.dst.family == V4
      ensures r.Ok? ==> r.value == Size(old(kernel)) - Size(kernel)
      ensures dryRun || MAX_TABLE_ID < table ==> kernel == old(kernel) && (r.Ok? <==> dryRun)
      ensures QuietBetween(old(kernel), old(kernel).calls, kernel.calls) && table <= MAX_TABLE_ID && !dryRun ==>
                r.Ok? && kernel.rules == FlushedRules(old(kernel.rules), table)
                && kernel.routes == FlushedRoutes(old(kernel.routes), table)
    {
      var routes := FlushTable(table);
      if routes.Err? { return routes; }
      var rules := FlushTablePolicyRules(table);
      if rules.Err? { return rules; }
      r := Ok(routes.value + rules.value);
    }
  }

  lemma LosingShrinks(k: KernelState, k': KernelState)
    requires OnlyLoses(k, k')
    ensures Size(k') <= Size(k)
  {
    SubsetSize(k'.rules, k.rules);
    SubsetSize(k'.routes.Keys, k.routes.Keys);
  }

  lemma FlushedWhenNoneLeft(k: KernelState, k': KernelState, table: nat)
    requires OnlyLoses(k, k')
    requires forall e :: e in k.routes && e !in k'.routes ==> e.table == table && e.dst.family == V4
    ensures (forall e :: e in k'.routes ==> !(e.table == table && e.dst.family == V4)) ==>
              k'.routes == FlushedRoutes(k.routes, table)
  {
  }

  lemma RemovingOneEntry(routes: map<Entry, string>, e: Entry)
    requires e in routes
    ensures |routes - {e}| == |routes| - 1
  {
    assert (routes - {e}).Keys == routes.Keys - {e};
  }

  /** How many entries the two tables hold. */
  function Size(k: KernelState): nat {
    |k.rules| + |k.routes|
  }
}
