/** The daemon loop that joins the monitor to the dispatcher (src/daemon/service.rs). */
module Service {
  import opened Wrappers
  import opened State
  import opened Netlink
  import opened Mirror
  import opened Kernel
  import opened Executor
  import opened Dispatcher
  import opened Runs
  import opened LedgerRuns
  import opened Discipline
  import opened Soundness

  /** The events of one poll handled in turn, each with its walk of the ledger. */
  function DispatchAll(s: EngineState, events: seq<NetworkEvent>, orders: seq<seq<string>>): EngineState
    requires |orders| == |events|
    decreases |events|
  {
    if events == [] then s
    else DispatchAll(HandleEvent(s, events[0], orders[0]), events[1..], orders[1..])
  }

  class DaemonService {
    const dispatcher: EventDispatcher
    var netlinkMonitor: NetlinkMonitor?

    constructor (dispatcher: EventDispatcher)
      ensures this.dispatcher == dispatcher && netlinkMonitor == null
    {
      this.dispatcher := dispatcher;
      netlinkMonitor := null;
    }

    /** Puts a connected route manager under the dispatcher and a monitor into the slot, or
        neither. A monitor without a first snapshot starts from an empty one. */
    method Init(base: nat, dryRun: bool, connects: bool, kernel: KernelState, first: Result<Snapshot>)
      returns (r: Result<()>)
      modifies this`netlinkMonitor, dispatcher.executor`manager
      ensures r.Ok? <==> AcceptsBase(base) && (dryRun || connects)
      ensures r.Err? ==> netlinkMonitor == old(netlinkMonitor) && dispatcher.View() == old(dispatcher.View())
      ensures r.Ok? ==>
                && netlinkMonitor != null && fresh(netlinkMonitor) && fresh(dispatcher.executor.manager)
                && netlinkMonitor.View() == MonitorState(if first.Ok? then first.value else map[], [])
                && dispatcher.View() == old(dispatcher.View()).(
                     exec := ExecState(RouterState(base, dryRun, kernel), old(dispatcher.View()).exec.ledger))
    {
      var manager := RouteManager.WithConnection(base, dryRun, connects, kernel);
      if manager.Err? { return Err(manager.error); }
      dispatcher.SetRouteManager(manager.value);
      netlinkMonitor := new NetlinkMonitor(first);
      r := Ok(());
    }

    /** The events of one poll, dispatched in order, each with a real walk of the ledger. */
    method DispatchInOrder(events: seq<NetworkEvent>) returns (ghost orders: seq<seq<string>>)
      modifies dispatcher`currentSsids, dispatcher`interfaceIndices, dispatcher.networkState
      modifies dispatcher.executor`activeRoutes, dispatcher.executor.manager`kernel
      ensures |orders| == |events| && ValidOrders(old(dispatcher.View()), events, orders)
      ensures dispatcher.View() == DispatchAll(old(dispatcher.View()), events, orders)
    {
      orders := [];
      ghost var start := dispatcher.View();
      for n := 0 to |events|
        invariant |orders| == n && dispatcher.executor.manager == old(dispatcher.executor.manager)
        invariant ValidOrders(start, events[..n], orders)
        invariant dispatcher.View() == DispatchAll(start, events[..n], orders)
      {
        ghost var walk := dispatcher.Handle(events[n]);
        DispatchOneMore(start, events[..n], orders, events[n], walk);
        assert events[..n + 1] == events[..n] + [events[n]];
        orders := orders + [walk];
      }
      assert events[..|events|] == events;
    }

    /** The monitor is taken out of its slot for the poll and is back in it however the poll
        ends; a refused poll changes nothing, and the events of a good one are dispatched in
        order, while their copies stay in the monitor's queue. */
    method PollNetworkChanges(snapshot: Result<Snapshot>) returns (ghost poll: Poll, ghost orders: seq<seq<string>>)
      modifies this`netlinkMonitor, netlinkMonitor
      modifies dispatcher`currentSsids, dispatcher`interfaceIndices, dispatcher.networkState
      modifies dispatcher.executor`activeRoutes, dispatcher.executor.manager`kernel
      ensures netlinkMonitor == old(netlinkMonitor)
      ensures poll.Took? <==> netlinkMonitor != null && snapshot.Ok?
      ensures poll.Took? ==> poll.current == snapshot.value
      ensures poll.Refused? ==> dispatcher.View() == old(dispatcher.View())
      ensures netlinkMonitor != null ==>
                && ValidPoll(old(netlinkMonitor.prevState), poll)
                && netlinkMonitor.View() == Polled(old(netlinkMonitor.View()), poll)
                && var events := Untag(PollEvents(old(netlinkMonitor.prevState), poll));
                   && |orders| == |events|
                   && ValidOrders(old(dispatcher.View()), events, orders)
                   && dispatcher.View() == DispatchAll(old(dispatcher.View()), events, orders)
    {
      poll, orders := Refused, [];
      var monitor := netlinkMonitor;
      if monitor == null { return; }
      netlinkMonitor := null;
      var polled;
      polled, poll := monitor.PollChanges(snapshot);
      if polled.Ok? {
        orders := DispatchInOrder(polled.value);
      }
      netlinkMonitor := monitor;
    }

    /** Startup with the interface list the monitor reports; without a monitor, nothing. The
        monitor is back in its slot once the dispatcher is done. */
    method ApplyInitialRoutes(interfaces: Result<seq<InterfaceInfo>>)
      returns (r: Result<()>, ghost cleaned: KernelState)
      modifies this`netlinkMonitor
      modifies dispatcher`interfaceIndices, dispatcher.networkState
      modifies dispatcher.executor`activeRoutes, dispatcher.executor.manager`kernel
      ensures netlinkMonitor == old(netlinkMonitor)
      ensures r.Err? <==> netlinkMonitor != null && interfaces.Err?
      ensures netlinkMonitor == null || interfaces.Err? ==> dispatcher.View() == old(dispatcher.View())
      ensures netlinkMonitor != null && interfaces.Ok? ==>
                var s := old(dispatcher.View());
                && CleanupDone(s.exec.router.kernel, cleaned, s.exec.router)
                && dispatcher.View() == ApplyInitial(
                     s.(interfaces := Populate(s.interfaces, interfaces.value),
                        exec := s.exec.(router := s.exec.router.(kernel := cleaned))), interfaces.value)
    {
      cleaned := dispatcher.executor.manager.kernel;
      var monitor := netlinkMonitor;
      if monitor == null { return Ok(()), cleaned; }
      netlinkMonitor := null;
      if interfaces.Err? {
        netlinkMonitor := monitor;
        return Err(interfaces.error), cleaned;
      }
      cleaned := dispatcher.ApplyInitialState(interfaces.value);
      netlinkMonitor := monitor;
      r := Ok(());
    }
  }

  /** Each walk of the ledger is a real one. */
  ghost predicate ValidOrders(s: EngineState, events: seq<NetworkEvent>, orders: seq<seq<string>>)
    requires |orders| == |events|
    decreases |events|
  {
    events == [] ||
    (ValidOrder(s, events[0], orders[0]) && ValidOrders(HandleEvent(s, events[0], orders[0]), events[1..], orders[1..]))
  }

  lemma {:induction false} DispatchOneMore(s: EngineState, events: seq<NetworkEvent>, orders: seq<seq<string>>,
      event: NetworkEvent, order: seq<string>)
    requires |orders| == |events| && ValidOrders(s, events, orders)
    requires ValidOrder(DispatchAll(s, events, orders), event, order)
    ensures ValidOrders(s, events + [event], orders + [order])
    ensures DispatchAll(s, events + [event], orders + [order]) ==
            HandleEvent(DispatchAll(s, events, orders), event, order)
    decreases |events|
  {
    if events == [] {
      assert (events + [event])[1..] == [] && (orders + [order])[1..] == [];
    } else {
      assert (events + [event])[1..] == events[1..] + [event] && (orders + [order])[1..] == orders[1..] + [order];
      DispatchOneMore(HandleEvent(s, events[0], orders[0]), events[1..], orders[1..], event, order);
    }
  }

  /** The dispatched events as steps of a run. */
  function EventOps(events: seq<NetworkEvent>, orders: seq<seq<string>>): seq<Op>
    requires |orders| == |events|
    decreases |events|
  {
    if events == [] then [] else [Event(events[0], orders[0])] + EventOps(events[1..], orders[1..])
  }

  /** What the loop dispatches is a run of the dispatcher, so all that is said of runs, the
      exact ledger and soundness among it, is said of the loop. */
  lemma {:induction false} DispatchIsRun(s: EngineState, events: seq<NetworkEvent>, orders: seq<seq<string>>)
    requires |orders| == |events| && ValidOrders(s, events, orders)
    ensures DispatchAll(s, events, orders) == Run(s, EventOps(events, orders))
    ensures RealRun(s, EventOps(events, orders)) && GrowingRun(s, EventOps(events, orders))
    ensures EventRun(s, EventOps(events, orders))
    decreases |events|
  {
    if events != [] {
      var rest := EventOps(events[1..], orders[1..]);
      assert EventOps(events, orders)[1..] == rest;
      DispatchIsRun(HandleEvent(s, events[0], orders[0]), events[1..], orders[1..]);
    }
  }

  lemma {:induction false} DispatchReplays(s: EngineState, events: seq<NetworkEvent>, orders: seq<seq<string>>)
    requires s.phase == Running && |orders| == |events|
    ensures DispatchAll(s, events, orders).interfaces == Replay(s.interfaces, events)
    decreases |events|
  {
    if events != [] {
      EventMovesSsids(s, events[0], orders[0]);
      DispatchReplays(HandleEvent(s, events[0], orders[0]), events[1..], orders[1..]);
    }
  }

  /** Each listed interface is up as the monitor's snapshot has it. */
  ghost predicate ListAgrees(infos: seq<InterfaceInfo>, s: Snapshot) {
    forall info :: info in infos ==> exists i :: i in s && s[i].name == info.name && s[i].isUp == info.isUp
  }

  lemma {:induction false} PopulateMirrors(links: Interfaces, infos: seq<InterfaceInfo>, s: Snapshot)
    requires Mirrors(links, s) && ListAgrees(infos, s)
    ensures Mirrors(Populate(links, infos), s)
    decreases |infos|
  {
    if infos != [] {
      assert infos[0] in infos && forall info :: info in infos[1..] ==> info in infos;
      var next := links[infos[0].name := infos[0]];
      forall n | n in next ensures exists i :: i in s && s[i].name == n && s[i].isUp == next[n].isUp {
        if n != infos[0].name {
          assert n in links;
        }
      }
      PopulateMirrors(next, infos[1..], s);
    }
  }

  // ---------------------------------------------------------------------------------------
  // The two readings of the links at startup
  // ---------------------------------------------------------------------------------------

  datatype RawLink = RawLink(name: string, flags: LinkFlags)

  type RawLinks = map<nat, RawLink>

  /** The links as a snapshot holds them, up when both flags are set, */
  function FirstSnapshot(raw: RawLinks): Snapshot {
    map i | i in raw :: Link(raw[i].name, SnapshotIsUp(raw[i].flags))
  }

  /** and as the startup list does, up on the first flag alone. */
  function InfoOf(link: RawLink): InterfaceInfo {
    InterfaceInfo(link.name, [], InitialIsUp(link.flags), None)
  }

  function InitialList(raw: RawLinks, order: seq<nat>): seq<InterfaceInfo>
    requires forall i :: i in order ==> i in raw
  {
    if order == [] then [] else [InfoOf(raw[order[0]])] + InitialList(raw, order[1..])
  }

  /** With unique names each listed link is cached as its own entry, and nothing else is. */
  lemma {:induction false} PopulateHolds(links: Interfaces, raw: RawLinks, order: seq<nat>)
    requires forall i :: i in order ==> i in raw
    requires forall k, l :: 0 <= k < l < |order| ==> raw[order[k]].name != raw[order[l]].name
    ensures var r := Populate(links, InitialList(raw, order));
            && (forall i :: i in order ==> raw[i].name in r && r[raw[i].name] == InfoOf(raw[i]))
            && (forall n :: n in links && (forall i :: i in order ==> raw[i].name != n) ==> n in r && r[n] == links[n])
            && (forall n :: n in r ==> n in links || exists i :: i in order && raw[i].name == n)
    decreases |order|
  {
    if order != [] {
      var info := InfoOf(raw[order[0]]);
      assert order == [order[0]] + order[1..];
      forall i | i in order[1..] ensures raw[i].name != info.name {
        var k :| 0 <= k < |order[1..]| && order[1..][k] == i;
        assert order[k + 1] == i;
      }
      PopulateHolds(links[info.name := info], raw, order[1..]);
      assert InitialList(raw, order)[1..] == InitialList(raw, order[1..]);
    }
  }

  lemma OneCachedPerLink(raw: RawLinks, order: seq<nat>)
    requires Walks(order, FirstSnapshot(raw)) && UniqueNames(FirstSnapshot(raw))
    ensures var links := Populate(map[], InitialList(raw, order));
            && (forall i :: i in raw ==> raw[i].name in links && links[raw[i].name] == InfoOf(raw[i]))
            && (forall n :: n in links ==> exists i :: i in raw && raw[i].name == n)
  {
    var s := FirstSnapshot(raw);
    forall i | i in order ensures i in raw {
      assert i in s;
    }
    forall k, l | 0 <= k < l < |order| ensures raw[order[k]].name != raw[order[l]].name {
      assert order[k] in s && order[l] in s;
      assert s[order[k]].name == raw[order[k]].name && s[order[l]].name == raw[order[l]].name;
    }
    PopulateHolds(map[], raw, order);
    forall i | i in raw ensures i in order {
      assert i in s;
    }
  }

  lemma AgreeingReadingIsMirrored(raw: RawLinks, links: Interfaces, n: string)
    requires n in links && exists i :: i in raw && raw[i].name == n
    requires forall i :: i in raw && raw[i].name == n ==> links[n] == InfoOf(raw[i])
    requires forall i :: i in raw && raw[i].flags.up ==> raw[i].flags.running
    ensures exists i :: i in FirstSnapshot(raw) && FirstSnapshot(raw)[i].name == n
                        && FirstSnapshot(raw)[i].isUp == links[n].isUp
  {
    var i :| i in raw && raw[i].name == n;
    assert i in FirstSnapshot(raw);
  }

  lemma MirroredReadingsAgree(raw: RawLinks, links: Interfaces, i: nat)
    requires UniqueNames(FirstSnapshot(raw)) && Mirrors(links, FirstSnapshot(raw)) && i in raw
    requires raw[i].name in links && links[raw[i].name] == InfoOf(raw[i])
    ensures SnapshotIsUp(raw[i].flags) == InitialIsUp(raw[i].flags)
  {
    var s := FirstSnapshot(raw);
    var j :| j in s && s[j].name == raw[i].name && s[j].isUp == links[raw[i].name].isUp;
    assert i in s && s[i].name == s[j].name;
  }

  /** The cache mirrors the monitor's first snapshot of the same links exactly when no link is
      up without running. */
  lemma StartMirrorsIffAllRun(raw: RawLinks, order: seq<nat>)
    requires Walks(order, FirstSnapshot(raw)) && UniqueNames(FirstSnapshot(raw))
    ensures Mirrors(Populate(map[], InitialList(raw, order)), FirstSnapshot(raw)) <==>
            forall i :: i in raw && raw[i].flags.up ==> raw[i].flags.running
  {
    var links := Populate(map[], InitialList(raw, order));
    OneCachedPerLink(raw, order);
    if Mirrors(links, FirstSnapshot(raw)) {
      forall i | i in raw && raw[i].flags.up ensures raw[i].flags.running {
        MirroredReadingsAgree(raw, links, i);
      }
    }
    if forall i :: i in raw && raw[i].flags.up ==> raw[i].flags.running {
      forall n | n in links
        ensures exists i :: i in FirstSnapshot(raw) && FirstSnapshot(raw)[i].name == n
                            && FirstSnapshot(raw)[i].isUp == links[n].isUp
      {
        AgreeingReadingIsMirrored(raw, links, n);
      }
    }
  }

  /** The state mirror of the running daemon: if the list read at startup agrees with the
      monitor's first snapshot, then after any polls, however the kernel answers and in
      whatever order the maps are walked, each cached interface is up exactly when its link
      in the latest snapshot is. */
  lemma DaemonMirrorsLinks(s: EngineState, infos: seq<InterfaceInfo>, first: Snapshot, polls: seq<Poll>,
      orders: seq<seq<string>>)
    requires s.phase == Running && s.interfaces == Populate(map[], infos) && ListAgrees(infos, first)
    requires ValidPolls(first, polls) && WellNamed(first, polls)
    requires |orders| == |Untag(AllEvents(first, polls))|
    ensures Mirrors(DispatchAll(s, Untag(AllEvents(first, polls)), orders).interfaces, LastSnapshot(first, polls))
  {
    PopulateMirrors(map[], infos, first);
    DispatchReplays(s, Untag(AllEvents(first, polls)), orders);
    StateMirrorsLinks(s.interfaces, first, polls);
  }
}
