/** Network events and the cached state of the interfaces
    (src/monitor/events.rs, src/monitor/state.rs). */
module State {
  import opened Wrappers
  import opened Net

  datatype InterfaceChange = Up | Down | Added | Removed

  datatype NetworkEvent =
    | InterfaceChanged(interface: string, change: InterfaceChange)
    | WifiConnected(interface: string, ssid: string)
    | WifiDisconnected(interface: string, lastSsid: Option<string>)
    | AddressChanged(interface: string, added: seq<IpNetwork>, removed: seq<IpNetwork>)
    | RouteChanged(destination: IpNetwork)

  datatype InterfaceInfo = InterfaceInfo(name: string, addresses: seq<IpNetwork>, isUp: bool, ssid: Option<string>)

  type Interfaces = map<string, InterfaceInfo>

  function Without(addrs: seq<IpNetwork>, removed: seq<IpNetwork>): seq<IpNetwork> {
    if addrs == [] then []
    else (if addrs[0] in removed then [] else [addrs[0]]) + Without(addrs[1..], removed)
  }

  function WithAdded(addrs: seq<IpNetwork>, added: seq<IpNetwork>): seq<IpNetwork>
    decreases |added|
  {
    if added == [] then addrs
    else WithAdded(if added[0] in addrs then addrs else addrs + [added[0]], added[1..])
  }

  /** Events about unknown interfaces change nothing. */
  function ApplyEvent(links: Interfaces, event: NetworkEvent): Interfaces {
    match event
    case InterfaceChanged(name, change) =>
      if name !in links then links
      else (
        match change
        case Up => links[name := links[name].(isUp := true)]
        case Down => links[name := links[name].(isUp := false)]
        case Added => links
        case Removed => links - {name}
      )
    case WifiConnected(name, ssid) =>
      if name in links then links[name := links[name].(ssid := Some(ssid), isUp := true)] else links
    case WifiDisconnected(name, _) =>
      if name in links then links[name := links[name].(ssid := None)] else links
    case AddressChanged(name, added, removed) =>
      if name in links then
        links[name := links[name].(addresses := WithAdded(Without(links[name].addresses, removed), added))]
      else links
    case RouteChanged(_) => links
  }

  class NetworkState {
    var interfaces: Interfaces

    constructor ()
      ensures interfaces == map[]
    {
      interfaces := map[];
    }

    method UpdateInterface(info: InterfaceInfo)
      modifies this
      ensures interfaces == old(interfaces)[info.name := info]
    {
      interfaces := interfaces[info.name := info];
    }

    method Apply(event: NetworkEvent)
      modifies this
      ensures interfaces == ApplyEvent(old(interfaces), event)
    {
      match event
      case InterfaceChanged(name, change) =>
        match change {
          case Up =>
            if name in interfaces { interfaces := interfaces[name := interfaces[name].(isUp := true)]; }
          case Down =>
            if name in interfaces { interfaces := interfaces[name := interfaces[name].(isUp := false)]; }
          case Added =>
          case Removed =>
            interfaces := interfaces - {name};
        }
      case WifiConnected(name, ssid) =>
        if name in interfaces {
          interfaces := interfaces[name := interfaces[name].(ssid := Some(ssid), isUp := true)];
        }
      case WifiDisconnected(name, _) =>
        if name in interfaces { interfaces := interfaces[name := interfaces[name].(ssid := None)]; }
      case AddressChanged(name, added, removed) =>
        ApplyAddressChange(name, added, removed);
      case RouteChanged(_) =>
    }

    method ApplyAddressChange(name: string, added: seq<IpNetwork>, removed: seq<IpNetwork>)
      modifies this
      ensures interfaces == ApplyEvent(old(interfaces), AddressChanged(name, added, removed))
    {
      if name !in interfaces { return; }
      var before := interfaces[name].addresses;
      var addrs := Retain(before, removed);
      for n := 0 to |added|
        invariant WithAdded(Without(before, removed), added) == WithAdded(addrs, added[n..])
      {
        if added[n] !in addrs {
          addrs := addrs + [added[n]];
        }
      }
      interfaces := interfaces[name := interfaces[name].(addresses := addrs)];
    }
  }

  method Retain(addrs: seq<IpNetwork>, removed: seq<IpNetwork>) returns (kept: seq<IpNetwork>)
    ensures kept == Without(addrs, removed)
  {
    kept := [];
    for n := 0 to |addrs|
      invariant Without(addrs, removed) == kept + Without(addrs[n..], removed)
    {
      if addrs[n] !in removed {
        kept := kept + [addrs[n]];
      }
    }
  }

  // ---------------------------------------------------------------------------------------
  // Address lists over whole runs
  // ---------------------------------------------------------------------------------------

  function Replay(links: Interfaces, events: seq<NetworkEvent>): Interfaces
    decreases |events|
  {
    if events == [] then links else Replay(ApplyEvent(links, events[0]), events[1..])
  }

  function Elements(s: seq<IpNetwork>): set<IpNetwork> {
    set a | a in s
  }

  ghost predicate NoDuplicates(s: seq<IpNetwork>) {
    forall i, j :: 0 <= i < j < |s| ==> s[i] != s[j]
  }

  /** Each change takes the old set, removes one set and unites another. */
  function ChangedSet(addrs: set<IpNetwork>, name: string, event: NetworkEvent): set<IpNetwork> {
    if event.AddressChanged? && event.interface == name then addrs - Elements(event.removed) + Elements(event.added)
    else addrs
  }

  function AddressSet(addrs: set<IpNetwork>, name: string, events: seq<NetworkEvent>): set<IpNetwork>
    decreases |events|
  {
    if events == [] then addrs else AddressSet(ChangedSet(addrs, name, events[0]), name, events[1..])
  }

  /** No event of the run removes this address from the interface. */
  ghost predicate Survives(a: IpNetwork, name: string, events: seq<NetworkEvent>) {
    forall e :: e in events && e.AddressChanged? && e.interface == name ==> a !in e.removed
  }

  ghost predicate Before(s: seq<IpNetwork>, a: IpNetwork, b: IpNetwork) {
    exists i, j :: 0 <= i < j < |s| && s[i] == a && s[j] == b
  }

  lemma {:induction false} WithoutMembers(addrs: seq<IpNetwork>, removed: seq<IpNetwork>, a: IpNetwork)
    ensures a in Without(addrs, removed) <==> a in addrs && a !in removed
  {
    if addrs != [] {
      WithoutMembers(addrs[1..], removed, a);
      assert addrs == [addrs[0]] + addrs[1..];
    }
  }

  lemma {:induction false} WithoutKeepsDistinct(addrs: seq<IpNetwork>, removed: seq<IpNetwork>)
    requires NoDuplicates(addrs)
    ensures NoDuplicates(Without(addrs, removed))
  {
    if addrs != [] {
      WithoutKeepsDistinct(addrs[1..], removed);
      WithoutMembers(addrs[1..], removed, addrs[0]);
      var rest := Without(addrs[1..], removed);
      assert addrs[0] !in addrs[1..];
      assert forall k :: 0 <= k < |rest| ==> rest[k] != addrs[0];
    }
  }

  lemma {:induction false} WithAddedMembers(addrs: seq<IpNetwork>, added: seq<IpNetwork>, a: IpNetwork)
    ensures a in WithAdded(addrs, added) <==> a in addrs || a in added
    decreases |added|
  {
    if added != [] {
      WithAddedMembers(if added[0] in addrs then addrs else addrs + [added[0]], added[1..], a);
      assert added == [added[0]] + added[1..];
    }
  }

  lemma {:induction false} WithAddedExtends(addrs: seq<IpNetwork>, added: seq<IpNetwork>)
    ensures addrs <= WithAdded(addrs, added)
    ensures NoDuplicates(addrs) ==> NoDuplicates(WithAdded(addrs, added))
    decreases |added|
  {
    if added != [] {
      WithAddedExtends(if added[0] in addrs then addrs else addrs + [added[0]], added[1..]);
    }
  }

  /** One change, as a set: the old addresses without the removed ones, and the added ones. */
  lemma ChangeAsSets(addrs: seq<IpNetwork>, added: seq<IpNetwork>, removed: seq<IpNetwork>)
    ensures Elements(WithAdded(Without(addrs, removed), added)) == Elements(addrs) - Elements(removed) + Elements(added)
  {
    forall a ensures a in WithAdded(Without(addrs, removed), added) <==> (a in addrs && a !in removed) || a in added {
      WithAddedMembers(Without(addrs, removed), added, a);
      WithoutMembers(addrs, removed, a);
    }
  }

  lemma BeforeShift(s: seq<IpNetwork>, prefix: seq<IpNetwork>, a: IpNetwork, b: IpNetwork)
    requires Before(s, a, b)
    ensures Before(prefix + s, a, b)
  {
    var i, j :| 0 <= i < j < |s| && s[i] == a && s[j] == b;
    var t := prefix + s;
    assert t[|prefix| + i] == a && t[|prefix| + j] == b;
  }

  lemma {:induction false} WithoutKeepsOrder(addrs: seq<IpNetwork>, removed: seq<IpNetwork>, a: IpNetwork, b: IpNetwork)
    requires Before(addrs, a, b) && a !in removed && b !in removed
    ensures Before(Without(addrs, removed), a, b)
  {
    var i, j :| 0 <= i < j < |addrs| && addrs[i] == a && addrs[j] == b;
    var rest := Without(addrs[1..], removed);
    if i == 0 {
      assert addrs[1..][j - 1] == b;
      WithoutMembers(addrs[1..], removed, b);
      var k :| 0 <= k < |rest| && rest[k] == b;
      assert ([a] + rest)[0] == a && ([a] + rest)[k + 1] == b;
    } else {
      assert addrs[1..][i - 1] == a && addrs[1..][j - 1] == b;
      WithoutKeepsOrder(addrs[1..], removed, a, b);
      BeforeShift(rest, if addrs[0] in removed then [] else [addrs[0]], a, b);
    }
  }

  /** One change keeps the surviving addresses in order. */
  lemma ChangeKeepsOrder(addrs: seq<IpNetwork>, added: seq<IpNetwork>, removed: seq<IpNetwork>, a: IpNetwork,
      b: IpNetwork)
    requires Before(addrs, a, b) && a !in removed && b !in removed
    ensures Before(WithAdded(Without(addrs, removed), added), a, b)
  {
    var kept := Without(addrs, removed);
    WithoutKeepsOrder(addrs, removed, a, b);
    WithAddedExtends(kept, added);
    var i, j :| 0 <= i < j < |kept| && kept[i] == a && kept[j] == b;
    var after := WithAdded(kept, added);
    assert after[i] == a && after[j] == b;
  }

  /** An address list follows its changes: still without duplicates, equal as a set to their
      fold, the survivors in order. */
  ghost predicate AddressesFollow(before: seq<IpNetwork>, after: seq<IpNetwork>, fold: set<IpNetwork>, name: string,
      events: seq<NetworkEvent>) {
    && (NoDuplicates(before) ==> NoDuplicates(after))
    && Elements(after) == fold
    && forall a, b :: Before(before, a, b) && Survives(a, name, events) && Survives(b, name, events) ==>
         Before(after, a, b)
  }

  lemma EventMovesAddresses(links: Interfaces, event: NetworkEvent, name: string)
    requires name in ApplyEvent(links, event)
    ensures name in links
    ensures AddressesFollow(links[name].addresses, ApplyEvent(links, event)[name].addresses,
                            ChangedSet(Elements(links[name].addresses), name, event), name, [event])
  {
    assert name in links;
    var before := links[name].addresses;
    if event.AddressChanged? && event.interface == name {
      ChangeAsSets(before, event.added, event.removed);
      WithAddedExtends(Without(before, event.removed), event.added);
      if NoDuplicates(before) {
        WithoutKeepsDistinct(before, event.removed);
      }
      forall a, b | Before(before, a, b) && Survives(a, name, [event]) && Survives(b, name, [event])
        ensures Before(ApplyEvent(links, event)[name].addresses, a, b)
      {
        assert event in [event];
        ChangeKeepsOrder(before, event.added, event.removed, a, b);
      }
    }
  }

  /** After any run, an interface still known has an address list without duplicates (if it
      began so), holding as a set the fold of all changes, with the survivors in order. */
  lemma {:induction false} AddressesOverRuns(links: Interfaces, events: seq<NetworkEvent>, name: string)
    requires name in Replay(links, events)
    ensures name in links
    ensures AddressesFollow(links[name].addresses, Replay(links, events)[name].addresses,
                            AddressSet(Elements(links[name].addresses), name, events), name, events)
    decreases |events|
  {
    if events != [] {
      var next := ApplyEvent(links, events[0]);
      AddressesOverRuns(next, events[1..], name);
      EventMovesAddresses(links, events[0], name);
      assert events == [events[0]] + events[1..];
      forall a | Survives(a, name, events) ensures Survives(a, name, [events[0]]) && Survives(a, name, events[1..]) {
        assert events[0] in events;
      }
    }
  }

  // ---------------------------------------------------------------------------------------
  // Up states and SSIDs over whole runs
  // ---------------------------------------------------------------------------------------

  /** What the event says of the interface: up, down, or nothing. */
  function UpSaid(event: NetworkEvent, name: string): Option<bool> {
    match event
    case InterfaceChanged(i, Up) => if i == name then Some(true) else None
    case InterfaceChanged(i, Down) => if i == name then Some(false) else None
    case WifiConnected(i, _) => if i == name then Some(true) else None
    case _ => None
  }

  /** The SSID the event gives the interface, or takes from it, if it does either. */
  function SsidSaid(event: NetworkEvent, name: string): Option<Option<string>> {
    match event
    case WifiConnected(i, ssid) => if i == name then Some(Some(ssid)) else None
    case WifiDisconnected(i, _) => if i == name then Some(None) else None
    case _ => None
  }

  /** The last of the run to say something counts. */
  function LastUp(events: seq<NetworkEvent>, name: string, before: bool): bool {
    if events == [] then before
    else
      var last := UpSaid(events[|events| - 1], name);
      if last.Some? then last.value else LastUp(events[..|events| - 1], name, before)
  }

  function LastSsid(events: seq<NetworkEvent>, name: string, before: Option<string>): Option<string> {
    if events == [] then before
    else
      var last := SsidSaid(events[|events| - 1], name);
      if last.Some? then last.value else LastSsid(events[..|events| - 1], name, before)
  }

  lemma {:induction false} ReplayOneMore(links: Interfaces, events: seq<NetworkEvent>, event: NetworkEvent)
    ensures Replay(links, events + [event]) == ApplyEvent(Replay(links, events), event)
    decreases |events|
  {
    if events == [] {
      assert (events + [event])[1..] == [];
      assert Replay(links, events + [event]) == Replay(ApplyEvent(links, event), []);
    } else {
      assert (events + [event])[1..] == events[1..] + [event];
      ReplayOneMore(ApplyEvent(links, events[0]), events[1..], event);
    }
  }

  /** Over any run of all kinds of events no interface is added, a known one is dropped by a
      Removed event about it and by nothing else, and while it stays its up state and its SSID
      are what the last event to say so said, its name what it was. */
  lemma {:induction false} StatusOverRuns(links: Interfaces, events: seq<NetworkEvent>, name: string)
    ensures var after := Replay(links, events);
            && (name in after <==> name in links && InterfaceChanged(name, Removed) !in events)
            && (name in after ==>
                  && after[name].isUp == LastUp(events, name, links[name].isUp)
                  && after[name].ssid == LastSsid(events, name, links[name].ssid)
                  && after[name].name == links[name].name)
    decreases |events|
  {
    if events != [] {
      var init, event := events[..|events| - 1], events[|events| - 1];
      assert events == init + [event];
      ReplayOneMore(links, init, event);
      StatusOverRuns(links, init, name);
    }
  }
}
