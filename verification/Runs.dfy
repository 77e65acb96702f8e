/** Whole runs of the dispatcher: network events, reloads, starts and stops in any order. */
module Runs {
  import opened Wrappers
  import opened Config
  import opened State
  import I = Indices
  import opened Dispatcher

  datatype Op =
    | Event(event: NetworkEvent, order: seq<string>)
    | Reload(config: Config)
    | Start
    | Stop

  function StepOf(s: EngineState, op: Op): EngineState {
    match op
    case Event(event, order) => HandleEvent(s, event, order)
    case Reload(config) => UpdateConfig(s, config)
    case Start => s.(phase := Running)
    case Stop => s.(phase := Stopped, exec := s.exec.(ledger := map[]))
  }

  function Run(s: EngineState, ops: seq<Op>): EngineState
    decreases |ops|
  {
    if ops == [] then s else Run(StepOf(s, ops[0]), ops[1..])
  }

  /** The walk of the ledger that an event makes is a real one. */
  ghost predicate RealWalk(s: EngineState, op: Op) {
    op.Event? ==> ValidOrder(s, op.event, op.order)
  }

  // ---------------------------------------------------------------------------------------
  // The three kinds of event
  // ---------------------------------------------------------------------------------------

  function MoveSsid(ssids: map<string, string>, event: NetworkEvent): map<string, string> {
    match event
    case WifiConnected(i, ssid) => ssids[i := ssid]
    case WifiDisconnected(i, _) => ssids - {i}
    case _ => ssids
  }

  /** The SSID of the event's interface once the event is taken in. */
  function SsidNow(s: EngineState, event: NetworkEvent): Option<string>
    requires !event.RouteChanged?
  {
    var ssids := MoveSsid(s.ssids, event);
    if event.interface in ssids then Some(ssids[event.interface]) else None
  }

  /** The event calls for the rules of the interface, not of its removal or of nothing. */
  predicate AsksForRules(s: EngineState, event: NetworkEvent) {
    || event.WifiConnected? || event.WifiDisconnected? || event.AddressChanged?
    || (event.InterfaceChanged? && event.change == Up && event.interface in s.interfaces && SsidNow(s, event).None?)
  }

  /** Joins, leaves, address changes and an Up of a known interface without SSID all come to
      applying the rules for the interface under the SSID it then has. */
  lemma AskingIsOneStep(s: EngineState, event: NetworkEvent, order: seq<string>)
    requires s.phase == Running && AsksForRules(s, event)
    ensures HandleEvent(s, event, order) ==
            ApplyForInterface(s.(interfaces := ApplyEvent(s.interfaces, event), ssids := MoveSsid(s.ssids, event)),
                              event.interface, SsidNow(s, event))
  {
  }

  lemma DownIsOneStep(s: EngineState, event: NetworkEvent, order: seq<string>)
    requires s.phase == Running && TakesDown(event)
    ensures HandleEvent(s, event, order) == HandleDown(s.(interfaces := ApplyEvent(s.interfaces, event)), order)
    ensures HandleEvent(s, event, order).exec == HandleDown(s, order).exec
  {
  }

  /** All other events but Down and Removed leave kernel, ledger and indices alone, and before
      the start or after a stop every event leaves the whole state alone. */
  lemma OthersAreQuiet(s: EngineState, event: NetworkEvent, order: seq<string>)
    ensures !AsksForRules(s, event) && !TakesDown(event) ==>
              HandleEvent(s, event, order).exec == s.exec && HandleEvent(s, event, order).indices == s.indices
    ensures s.phase != Running ==> HandleEvent(s, event, order) == s
  {
  }

  // ---------------------------------------------------------------------------------------
  // The phase
  // ---------------------------------------------------------------------------------------

  /** The phase after the last start or stop of the run. */
  function LastPhase(ops: seq<Op>, before: Phase): Phase {
    if ops == [] then before
    else match ops[|ops| - 1]
      case Start => Running
      case Stop => Stopped
      case _ => LastPhase(ops[..|ops| - 1], before)
  }

  /** The configuration of the last reload of the run. */
  function LastConfig(ops: seq<Op>, before: Config): Config {
    if ops == [] then before
    else match ops[|ops| - 1]
      case Reload(config) => config
      case _ => LastConfig(ops[..|ops| - 1], before)
  }

  lemma {:induction false} RunOneMore(s: EngineState, ops: seq<Op>, op: Op)
    ensures Run(s, ops + [op]) == StepOf(Run(s, ops), op)
    decreases |ops|
  {
    if ops == [] {
      assert (ops + [op])[1..] == [];
      assert Run(s, ops + [op]) == Run(StepOf(s, op), []);
    } else {
      assert (ops + [op])[1..] == ops[1..] + [op];
      RunOneMore(StepOf(s, ops[0]), ops[1..], op);
    }
  }

  /** What one step leaves alone: only starts and stops move the phase, only reloads the
      configuration; a start or a reload touches neither ledger nor kernel, interfaces nor SSIDs,
      and a stop of these the ledger alone, which it empties. */
  lemma StepTouches(s: EngineState, op: Op)
    ensures var t := StepOf(s, op);
            && t.phase == (if op.Start? then Running else if op.Stop? then Stopped else s.phase)
            && t.config == (if op.Reload? then op.config else s.config)
            && (!op.Event? ==>
                  && t.interfaces == s.interfaces && t.ssids == s.ssids && t.exec.router == s.exec.router
                  && (op.Reload? || t.indices == s.indices)
                  && t.exec.ledger == if op.Stop? then map[] else s.exec.ledger)
  {
    if op.Event? && s.phase == Running {
      EventMovesSsids(s, op.event, op.order);
    }
  }

  lemma EventAllocates(s: EngineState, event: NetworkEvent, order: seq<string>)
    ensures var t := HandleEvent(s, event, order);
            t.indices == s.indices ||
            (!event.RouteChanged? && t.indices == I.AssignIndex(s.indices, event.interface).0)
  {
    if s.phase == Running {
      if TakesDown(event) {
        DownIsOneStep(s, event, order);
      } else if AsksForRules(s, event) {
        AskingIsOneStep(s, event, order);
      } else {
        OthersAreQuiet(s, event, order);
      }
    }
  }

  lemma OneIndexStep(m: I.IndexMap<string>, op: I.IndexOp<string>)
    ensures I.IndexRun(m, [op]) == I.IndexStep(m, op)
  {
    assert [op][1..] == [];
    assert I.IndexRun(m, [op]) == I.IndexRun(I.IndexStep(m, op), []);
  }

  /** What a step asks of the allocator: nothing, the index of the event's interface, or a rebuild
      for the interfaces of the new configuration. */
  lemma StepAllocates(s: EngineState, op: Op) returns (asked: seq<I.IndexOp<string>>)
    ensures StepOf(s, op).indices == I.IndexRun(s.indices, asked)
    ensures |asked| <= 1 && (op.Reload? ==> asked == [I.Reload(op.config.interfaces)])
    ensures !op.Reload? && asked != [] ==>
              op.Event? && !op.event.RouteChanged? && asked == [I.Get(op.event.interface)]
  {
    asked := [];
    if op.Reload? {
      asked := [I.Reload(op.config.interfaces)];
      OneIndexStep(s.indices, asked[0]);
    } else if op.Event? {
      EventAllocates(s, op.event, op.order);
      if StepOf(s, op).indices != s.indices {
        asked := [I.Get(op.event.interface)];
        OneIndexStep(s.indices, asked[0]);
      }
    }
  }

  lemma {:induction false} IndexRunConcat(m: I.IndexMap<string>, a: seq<I.IndexOp<string>>, b: seq<I.IndexOp<string>>)
    ensures I.IndexRun(m, a + b) == I.IndexRun(I.IndexRun(m, a), b)
    decreases |a|
  {
    if a == [] {
      assert a + b == b;
    } else {
      assert (a + b)[1..] == a[1..] + b;
      IndexRunConcat(I.IndexStep(m, a[0]), a[1..], b);
    }
  }

  /** Over any run the indices are those of a run of the allocator alone, so what is said of its
      runs is said of the dispatcher's. */
  lemma {:induction false} RunAllocates(s: EngineState, ops: seq<Op>) returns (asked: seq<I.IndexOp<string>>)
    ensures Run(s, ops).indices == I.IndexRun(s.indices, asked)
    ensures forall config :: Reload(config) in ops ==> I.Reload(config.interfaces) in asked
    ensures |asked| <= |ops|
    decreases |ops|
  {
    if ops == [] {
      asked := [];
    } else {
      var first := StepAllocates(s, ops[0]);
      var rest := RunAllocates(StepOf(s, ops[0]), ops[1..]);
      IndexRunConcat(s.indices, first, rest);
      asked := first + rest;
      assert ops == [ops[0]] + ops[1..];
    }
  }

  /** Over any run the phase is that of the last start or stop, and the configuration that of the
      last reload, whatever the events and their failures. */
  lemma {:induction false} PhaseOverRuns(s: EngineState, ops: seq<Op>)
    ensures Run(s, ops).phase == LastPhase(ops, s.phase)
    ensures Run(s, ops).config == LastConfig(ops, s.config)
    decreases |ops|
  {
    if ops != [] {
      var init, op := ops[..|ops| - 1], ops[|ops| - 1];
      assert ops == init + [op];
      RunOneMore(s, init, op);
      PhaseOverRuns(s, init);
      StepTouches(Run(s, init), op);
    }
  }

  // ---------------------------------------------------------------------------------------
  // The two copies of the SSID
  // ---------------------------------------------------------------------------------------

  /** Each cached interface has the SSID the dispatcher tracks for it. */
  ghost predicate SsidsAgree(s: EngineState) {
    forall n :: n in s.interfaces ==>
      s.interfaces[n].ssid == if n in s.ssids then Some(s.ssids[n]) else None
  }

  /** Applying rules touches the executor and the indices only. */
  ghost predicate OnlyRoutes(s: EngineState, t: EngineState) {
    t == s.(exec := t.exec, indices := t.indices)
  }

  lemma ApplyingOnlyRoutes(s: EngineState, interface: string, ssid: Option<string>)
    ensures OnlyRoutes(s, ApplyDefaultRules(s, interface))
    ensures OnlyRoutes(s, ApplyForInterface(s, interface, ssid))
  {
  }

  /** Nothing but the event itself touches the interfaces or the SSIDs. */
  lemma EventMovesSsids(s: EngineState, event: NetworkEvent, order: seq<string>)
    requires s.phase == Running
    ensures OnlyRoutes(s.(interfaces := ApplyEvent(s.interfaces, event), ssids := MoveSsid(s.ssids, event)),
                       HandleEvent(s, event, order))
  {
    var s1 := s.(interfaces := ApplyEvent(s.interfaces, event));
    match event
    case InterfaceChanged(interface, change) =>
      ApplyingOnlyRoutes(s1, interface, None);
    case WifiConnected(interface, ssid) =>
      ApplyingOnlyRoutes(s1.(ssids := s1.ssids[interface := ssid]), interface, Some(ssid));
    case WifiDisconnected(interface, _) =>
      ApplyingOnlyRoutes(s1.(ssids := s1.ssids - {interface}), interface, None);
    case AddressChanged(interface, _, _) =>
      ApplyingOnlyRoutes(s1, interface, if interface in s1.ssids then Some(s1.ssids[interface]) else None);
    case RouteChanged(_) =>
  }

  /** From a state that agrees, the two copies agree after every run of events, reloads,
      starts and stops, though unknown interfaces are tracked on one side only. */
  lemma {:induction false} SsidsAgreeOverRuns(s: EngineState, ops: seq<Op>)
    requires SsidsAgree(s)
    ensures SsidsAgree(Run(s, ops))
    decreases |ops|
  {
    if ops != [] {
      if ops[0].Event? && s.phase == Running {
        EventKeepsAgreement(s, ops[0].event, ops[0].order);
      }
      SsidsAgreeOverRuns(StepOf(s, ops[0]), ops[1..]);
    }
  }

  lemma MovingKeepsAgreement(s: EngineState, event: NetworkEvent)
    requires SsidsAgree(s)
    ensures SsidsAgree(s.(interfaces := ApplyEvent(s.interfaces, event), ssids := MoveSsid(s.ssids, event)))
  {
    var links, ssids := ApplyEvent(s.interfaces, event), MoveSsid(s.ssids, event);
    forall n | n in links ensures links[n].ssid == if n in ssids then Some(ssids[n]) else None {
      assert n in s.interfaces;
    }
  }

  lemma EventKeepsAgreement(s: EngineState, event: NetworkEvent, order: seq<string>)
    requires SsidsAgree(s) && s.phase == Running
    ensures SsidsAgree(HandleEvent(s, event, order))
  {
    EventMovesSsids(s, event, order);
    MovingKeepsAgreement(s, event);
  }
}
