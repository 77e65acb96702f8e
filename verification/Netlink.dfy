/** Polling link snapshots and turning their differences into events (src/monitor/netlink.rs). */
module Netlink {
  import opened Wrappers
  import opened State

  datatype Link = Link(name: string, isUp: bool)

  type Snapshot = map<nat, Link>

  /** The two flags of a link message that the monitor looks at. */
  datatype LinkFlags = LinkFlags(up: bool, running: bool)

  /** A snapshot calls a link up when it is both up and running. */
  function SnapshotIsUp(flags: LinkFlags): bool { flags.up && flags.running }

  /** The initial interface list looks at the first flag alone. */
  function InitialIsUp(flags: LinkFlags): bool { flags.up }

  /** An event tagged with the index of the link it came from. */
  type Tagged = (nat, NetworkEvent)

  function ChangeEvent(prev: Snapshot, current: Snapshot, index: nat): seq<Tagged>
    requires index in current
  {
    var link := current[index];
    if index in prev then
      if prev[index].isUp != link.isUp then
        [(index, InterfaceChanged(link.name, if link.isUp then Up else Down))]
      else []
    else if link.isUp then [(index, InterfaceChanged(link.name, Up))]
    else []
  }

  function ChangeEvents(prev: Snapshot, current: Snapshot, order: seq<nat>): seq<Tagged>
    requires forall i :: i in order ==> i in current
  {
    if order == [] then []
    else ChangeEvent(prev, current, order[0]) + ChangeEvents(prev, current, order[1..])
  }

  function RemovedEvent(prev: Snapshot, current: Snapshot, index: nat): seq<Tagged>
    requires index in prev
  {
    if index in current then [] else [(index, InterfaceChanged(prev[index].name, Removed))]
  }

  function RemovedEvents(prev: Snapshot, current: Snapshot, order: seq<nat>): seq<Tagged>
    requires forall i :: i in order ==> i in prev
  {
    if order == [] then []
    else RemovedEvent(prev, current, order[0]) + RemovedEvents(prev, current, order[1..])
  }

  /** order walks the map once, in whatever order the hash map has. */
  ghost predicate Walks(order: seq<nat>, snapshot: Snapshot) {
    && (forall i :: i in order <==> i in snapshot)
    && forall k, l :: 0 <= k < l < |order| ==> order[k] != order[l]
  }

  /** What one poll emits: changes and new links first, then the links that are gone. */
  function Diff(prev: Snapshot, current: Snapshot, order: seq<nat>, prevOrder: seq<nat>): seq<Tagged>
    requires forall i :: i in order ==> i in current
    requires forall i :: i in prevOrder ==> i in prev
  {
    ChangeEvents(prev, current, order) + RemovedEvents(prev, current, prevOrder)
  }

  function Untag(events: seq<Tagged>): seq<NetworkEvent> {
    if events == [] then [] else [events[0].1] + Untag(events[1..])
  }

  lemma {:induction false} UntagConcat(a: seq<Tagged>, b: seq<Tagged>)
    ensures Untag(a + b) == Untag(a) + Untag(b)
  {
    if a == [] {
      assert a + b == b;
    } else {
      assert (a + b)[1..] == a[1..] + b;
      UntagConcat(a[1..], b);
    }
  }

  lemma {:induction false} ChangeEventsConcat(prev: Snapshot, current: Snapshot, a: seq<nat>, b: seq<nat>)
    requires forall i :: i in a + b ==> i in current
    ensures ChangeEvents(prev, current, a + b) == ChangeEvents(prev, current, a) + ChangeEvents(prev, current, b)
  {
    if a == [] {
      assert a + b == b;
    } else {
      assert (a + b)[0] == a[0] && (a + b)[1..] == a[1..] + b;
      ChangeEventsConcat(prev, current, a[1..], b);
    }
  }

  lemma {:induction false} RemovedEventsConcat(prev: Snapshot, current: Snapshot, a: seq<nat>, b: seq<nat>)
    requires forall i :: i in a + b ==> i in prev
    ensures RemovedEvents(prev, current, a + b) == RemovedEvents(prev, current, a) + RemovedEvents(prev, current, b)
  {
    if a == [] {
      assert a + b == b;
    } else {
      assert (a + b)[0] == a[0] && (a + b)[1..] == a[1..] + b;
      RemovedEventsConcat(prev, current, a[1..], b);
    }
  }

  method CollectChanges(prev: Snapshot, current: Snapshot) returns (events: seq<NetworkEvent>, ghost order: seq<nat>)
    ensures Walks(order, current)
    ensures events == Untag(ChangeEvents(prev, current, order))
  {
    events, order := [], [];
    var left := current.Keys;
    while left != {}
      invariant left <= current.Keys
      invariant forall i :: i in order <==> i in current && i !in left
      invariant forall k, l :: 0 <= k < l < |order| ==> order[k] != order[l]
      invariant events == Untag(ChangeEvents(prev, current, order))
      decreases |left|
    {
      var index :| index in left;
      var link := current[index];
      ghost var before := events;
      if index in prev {
        if prev[index].isUp != link.isUp {
          events := events + [InterfaceChanged(link.name, if link.isUp then Up else Down)];
        }
      } else if link.isUp {
        events := events + [InterfaceChanged(link.name, Up)];
      }
      assert ChangeEvents(prev, current, [index]) == ChangeEvent(prev, current, index);
      assert events == before + Untag(ChangeEvents(prev, current, [index]));
      ChangeEventsConcat(prev, current, order, [index]);
      UntagConcat(ChangeEvents(prev, current, order), ChangeEvents(prev, current, [index]));
      left, order := left - {index}, order + [index];
    }
  }

  method CollectRemovals(prev: Snapshot, current: Snapshot) returns (events: seq<NetworkEvent>, ghost order: seq<nat>)
    ensures Walks(order, prev)
    ensures events == Untag(RemovedEvents(prev, current, order))
  {
    events, order := [], [];
    var left := prev.Keys;
    while left != {}
      invariant left <= prev.Keys
      invariant forall i :: i in order <==> i in prev && i !in left
      invariant forall k, l :: 0 <= k < l < |order| ==> order[k] != order[l]
      invariant events == Untag(RemovedEvents(prev, current, order))
      decreases |left|
    {
      var index :| index in left;
      ghost var before := events;
      if index !in current {
        events := events + [InterfaceChanged(prev[index].name, Removed)];
      }
      assert RemovedEvents(prev, current, [index]) == RemovedEvent(prev, current, index);
      assert events == before + Untag(RemovedEvents(prev, current, [index]));
      RemovedEventsConcat(prev, current, order, [index]);
      UntagConcat(RemovedEvents(prev, current, order), RemovedEvents(prev, current, [index]));
      left, order := left - {index}, order + [index];
    }
  }

  /** One attempt to poll: refused, or a snapshot with the orders its maps are walked in. */
  datatype Poll = Refused | Took(current: Snapshot, order: seq<nat>, prevOrder: seq<nat>)

  datatype MonitorState = MonitorState(prev: Snapshot, pending: seq<NetworkEvent>)

  ghost predicate ValidPoll(prev: Snapshot, poll: Poll) {
    poll.Took? ==> Walks(poll.order, poll.current) && Walks(poll.prevOrder, prev)
  }

  ghost function PollEvents(prev: Snapshot, poll: Poll): seq<Tagged>
    requires ValidPoll(prev, poll)
  {
    if poll.Refused? then [] else Diff(prev, poll.current, poll.order, poll.prevOrder)
  }

  function NextSnapshot(prev: Snapshot, poll: Poll): Snapshot {
    if poll.Took? then poll.current else prev
  }

  /** A refused poll changes nothing; the events of another are queued. */
  ghost function Polled(m: MonitorState, poll: Poll): MonitorState
    requires ValidPoll(m.prev, poll)
  {
    MonitorState(NextSnapshot(m.prev, poll), m.pending + Untag(PollEvents(m.prev, poll)))
  }

  /** The oldest queued event is taken, if there is one. */
  function Taken(m: MonitorState): (MonitorState, Option<NetworkEvent>) {
    if m.pending == [] then (m, None) else (m.(pending := m.pending[1..]), Some(m.pending[0]))
  }

  class NetlinkMonitor {
    var prevState: Snapshot
    var pending: seq<NetworkEvent>

    function View(): MonitorState
      reads this
    {
      MonitorState(prevState, pending)
    }

    /** A failed first snapshot leaves the monitor with an empty one. */
    constructor (first: Result<Snapshot>)
      ensures View() == MonitorState(if first.Ok? then first.value else map[], [])
    {
      pending := [];
      prevState := if first.Ok? then first.value else map[];
    }

    /** Compares the new snapshot with the last one; a failed snapshot changes nothing. */
    method PollChanges(snapshot: Result<Snapshot>) returns (r: Result<seq<NetworkEvent>>, ghost poll: Poll)
      modifies this
      ensures r.Ok? == snapshot.Ok? == poll.Took? && (r.Err? ==> r.error == snapshot.error)
      ensures ValidPoll(old(prevState), poll) && (poll.Took? ==> poll.current == snapshot.value)
      ensures r.Ok? ==> r.value == Untag(PollEvents(old(prevState), poll))
      ensures View() == Polled(old(View()), poll)
    {
      poll := Refused;
      if snapshot.Err? {
        assert pending + [] == pending;
        return Err(snapshot.error), Refused;
      }
      var current := snapshot.value;
      ghost var order, prevOrder;
      var changes, removals;
      changes, order := CollectChanges(prevState, current);
      removals, prevOrder := CollectRemovals(prevState, current);
      UntagConcat(ChangeEvents(prevState, current, order), RemovedEvents(prevState, current, prevOrder));
      poll := Took(current, order, prevOrder);
      pending := pending + (changes + removals);
      prevState := current;
      r := Ok(changes + removals);
    }

    method PollNext() returns (event: Option<NetworkEvent>)
      modifies this
      ensures (View(), event) == Taken(old(View()))
    {
      if pending == [] { return None; }
      event := Some(pending[0]);
      pending := pending[1..];
    }
  }

  // ---------------------------------------------------------------------------------------
  // Whole runs of polls
  // ---------------------------------------------------------------------------------------

  ghost predicate ValidPolls(prev: Snapshot, polls: seq<Poll>)
    decreases |polls|
  {
    polls == [] || (ValidPoll(prev, polls[0]) && ValidPolls(NextSnapshot(prev, polls[0]), polls[1..]))
  }

  function LastSnapshot(prev: Snapshot, polls: seq<Poll>): Snapshot
    decreases |polls|
  {
    if polls == [] then prev else LastSnapshot(NextSnapshot(prev, polls[0]), polls[1..])
  }

  ghost function AllEvents(prev: Snapshot, polls: seq<Poll>): seq<Tagged>
    requires ValidPolls(prev, polls)
    decreases |polls|
  {
    if polls == [] then [] else PollEvents(prev, polls[0]) + AllEvents(NextSnapshot(prev, polls[0]), polls[1..])
  }

  function UpSet(s: Snapshot): set<nat> {
    set i | i in s && s[i].isUp
  }

  /** Up adds the link, Down and Removed take it away. */
  function ReplayUp(up: set<nat>, events: seq<Tagged>): set<nat>
    decreases |events|
  {
    if events == [] then up
    else
      var (index, event) := events[0];
      ReplayUp(if event.InterfaceChanged? && event.change == Up then up + {index} else up - {index}, events[1..])
  }

  lemma {:induction false} ReplayUpConcat(up: set<nat>, a: seq<Tagged>, b: seq<Tagged>)
    ensures ReplayUp(up, a + b) == ReplayUp(ReplayUp(up, a), b)
    decreases |a|
  {
    if a == [] {
      assert a + b == b;
    } else {
      assert (a + b)[1..] == a[1..] + b;
      var (index, event) := a[0];
      ReplayUpConcat(if event.InterfaceChanged? && event.change == Up then up + {index} else up - {index}, a[1..], b);
    }
  }

  lemma ReplayOneChange(prev: Snapshot, current: Snapshot, index: nat, up: set<nat>)
    requires index in current && (index in up <==> index in UpSet(prev))
    ensures forall i :: i in ReplayUp(up, ChangeEvent(prev, current, index)) <==>
                        if i == index then i in UpSet(current) else i in up
  {
    var events := ChangeEvent(prev, current, index);
    if events != [] {
      assert events[1..] == [];
      assert ReplayUp(up, events) == if current[index].isUp then up + {index} else up - {index};
    } else {
      assert ReplayUp(up, events) == up;
    }
  }

  lemma {:induction false} ReplayChanges(prev: Snapshot, current: Snapshot, order: seq<nat>, up: set<nat>)
    requires forall i :: i in order ==> i in current
    requires forall k, l :: 0 <= k < l < |order| ==> order[k] != order[l]
    requires forall i :: i in order ==> (i in up <==> i in UpSet(prev))
    ensures forall i :: i in ReplayUp(up, ChangeEvents(prev, current, order)) <==>
                        if i in order then i in UpSet(current) else i in up
    decreases |order|
  {
    if order != [] {
      var first := ChangeEvent(prev, current, order[0]);
      var next := ReplayUp(up, first);
      assert order == [order[0]] + order[1..];
      assert order[0] !in order[1..];
      ReplayOneChange(prev, current, order[0], up);
      ReplayUpConcat(up, first, ChangeEvents(prev, current, order[1..]));
      ReplayChanges(prev, current, order[1..], next);
    }
  }

  lemma {:induction false} ReplayRemovals(prev: Snapshot, current: Snapshot, order: seq<nat>, up: set<nat>)
    requires forall i :: i in order ==> i in prev
    ensures forall i :: i in ReplayUp(up, RemovedEvents(prev, current, order)) <==>
                        i in up && !(i in order && i !in current)
    decreases |order|
  {
    if order != [] {
      var first := RemovedEvent(prev, current, order[0]);
      assert order == [order[0]] + order[1..];
      ReplayUpConcat(up, first, RemovedEvents(prev, current, order[1..]));
      ReplayRemovals(prev, current, order[1..], ReplayUp(up, first));
    }
  }

  /** Diff and replay are inverse: the events of one poll turn the old up-set into the new. */
  lemma DiffReplays(prev: Snapshot, current: Snapshot, order: seq<nat>, prevOrder: seq<nat>)
    requires Walks(order, current) && Walks(prevOrder, prev)
    ensures ReplayUp(UpSet(prev), Diff(prev, current, order, prevOrder)) == UpSet(current)
  {
    ReplayChanges(prev, current, order, UpSet(prev));
    var mid := ReplayUp(UpSet(prev), ChangeEvents(prev, current, order));
    ReplayRemovals(prev, current, prevOrder, mid);
    ReplayUpConcat(UpSet(prev), ChangeEvents(prev, current, order), RemovedEvents(prev, current, prevOrder));
  }

  /** Telescoping: all events of any run of polls, refused ones included, turn the first
      up-set into the last. */
  lemma {:induction false} EventsTelescope(prev: Snapshot, polls: seq<Poll>)
    requires ValidPolls(prev, polls)
    ensures ReplayUp(UpSet(prev), AllEvents(prev, polls)) == UpSet(LastSnapshot(prev, polls))
    decreases |polls|
  {
    if polls != [] {
      match polls[0]
      case Refused =>
        assert AllEvents(prev, polls) == AllEvents(prev, polls[1..]);
        EventsTelescope(prev, polls[1..]);
      case Took(current, order, prevOrder) =>
        DiffReplays(prev, current, order, prevOrder);
        ReplayUpConcat(UpSet(prev), Diff(prev, current, order, prevOrder), AllEvents(current, polls[1..]));
        EventsTelescope(current, polls[1..]);
    }
  }

  /** The links a poll speaks about: new ones that are up, changed ones, and removed ones. */
  predicate Changed(prev: Snapshot, current: Snapshot, index: nat) {
    if index in current then
      current[index].isUp != (index in prev && prev[index].isUp)
    else index in prev
  }

  function TagsOf(events: seq<Tagged>): seq<nat> {
    if events == [] then [] else [events[0].0] + TagsOf(events[1..])
  }

  lemma {:induction false} TagsConcat(a: seq<Tagged>, b: seq<Tagged>)
    ensures TagsOf(a + b) == TagsOf(a) + TagsOf(b)
  {
    if a == [] {
      assert a + b == b;
    } else {
      assert (a + b)[1..] == a[1..] + b;
      TagsConcat(a[1..], b);
    }
  }

  function Count(order: seq<nat>, index: nat): nat {
    if order == [] then 0 else (if order[0] == index then 1 else 0) + Count(order[1..], index)
  }

  lemma {:induction false} CountConcat(a: seq<nat>, b: seq<nat>, index: nat)
    ensures Count(a + b, index) == Count(a, index) + Count(b, index)
  {
    if a == [] {
      assert a + b == b;
    } else {
      assert (a + b)[1..] == a[1..] + b;
      CountConcat(a[1..], b, index);
    }
  }

  lemma {:induction false} DistinctCount(order: seq<nat>, index: nat)
    requires forall k, l :: 0 <= k < l < |order| ==> order[k] != order[l]
    ensures Count(order, index) == if index in order then 1 else 0
  {
    if order != [] {
      assert order == [order[0]] + order[1..];
      assert order[0] !in order[1..];
      DistinctCount(order[1..], index);
    }
  }

  lemma OneChangeTag(prev: Snapshot, current: Snapshot, at: nat, index: nat)
    requires at in current
    ensures Count(TagsOf(ChangeEvent(prev, current, at)), index) ==
            if at == index && Changed(prev, current, index) then 1 else 0
  {
    var events := ChangeEvent(prev, current, at);
    if events != [] {
      assert events[1..] == [];
      assert TagsOf(events) == [at] && [at][1..] == [];
    }
  }

  lemma {:induction false} ChangeTags(prev: Snapshot, current: Snapshot, order: seq<nat>, index: nat)
    requires forall i :: i in order ==> i in current
    ensures Count(TagsOf(ChangeEvents(prev, current, order)), index) ==
            if index in current && Changed(prev, current, index) then Count(order, index) else 0
  {
    if order != [] {
      assert order == [order[0]] + order[1..];
      OneChangeTag(prev, current, order[0], index);
      TagsConcat(ChangeEvent(prev, current, order[0]), ChangeEvents(prev, current, order[1..]));
      CountConcat(TagsOf(ChangeEvent(prev, current, order[0])), TagsOf(ChangeEvents(prev, current, order[1..])), index);
      ChangeTags(prev, current, order[1..], index);
    }
  }

  lemma {:induction false} RemovedTags(prev: Snapshot, current: Snapshot, order: seq<nat>, index: nat)
    requires forall i :: i in order ==> i in prev
    ensures Count(TagsOf(RemovedEvents(prev, current, order)), index) ==
            if index in current then 0 else Count(order, index)
  {
    if order != [] {
      assert order == [order[0]] + order[1..];
      TagsConcat(RemovedEvent(prev, current, order[0]), RemovedEvents(prev, current, order[1..]));
      CountConcat(TagsOf(RemovedEvent(prev, current, order[0])), TagsOf(RemovedEvents(prev, current, order[1..])),
                  index);
      RemovedTags(prev, current, order[1..], index);
    }
  }

  /** One poll emits exactly one event for each link that changed and none for the others. */
  lemma OneEventPerChange(prev: Snapshot, current: Snapshot, order: seq<nat>, prevOrder: seq<nat>, index: nat)
    requires Walks(order, current) && Walks(prevOrder, prev)
    ensures Count(TagsOf(Diff(prev, current, order, prevOrder)), index) ==
            if Changed(prev, current, index) then 1 else 0
  {
    var changes, removals := ChangeEvents(prev, current, order), RemovedEvents(prev, current, prevOrder);
    TagsConcat(changes, removals);
    CountConcat(TagsOf(changes), TagsOf(removals), index);
    ChangeTags(prev, current, order, index);
    RemovedTags(prev, current, prevOrder, index);
    DistinctCount(order, index);
    DistinctCount(prevOrder, index);
  }

  // ---------------------------------------------------------------------------------------
  // The event queue
  // ---------------------------------------------------------------------------------------

  /** What happens to a monitor: it is polled, or one event is taken from it. */
  datatype MonitorStep = DoPoll(poll: Poll) | Take

  ghost predicate ValidSteps(prev: Snapshot, steps: seq<MonitorStep>)
    decreases |steps|
  {
    steps == [] ||
    match steps[0]
    case DoPoll(poll) => ValidPoll(prev, poll) && ValidSteps(NextSnapshot(prev, poll), steps[1..])
    case Take => ValidSteps(prev, steps[1..])
  }

  /** The monitor after the steps, and the events delivered so far. */
  ghost function MonitorRun(m: MonitorState, delivered: seq<NetworkEvent>, steps: seq<MonitorStep>)
    : (MonitorState, seq<NetworkEvent>)
    requires ValidSteps(m.prev, steps)
    decreases |steps|
  {
    if steps == [] then (m, delivered)
    else match steps[0]
      case DoPoll(poll) => MonitorRun(Polled(m, poll), delivered, steps[1..])
      case Take =>
        var (next, event) := Taken(m);
        MonitorRun(next, if event.Some? then delivered + [event.value] else delivered, steps[1..])
  }

  function PollsOf(steps: seq<MonitorStep>): seq<Poll> {
    if steps == [] then [] else (if steps[0].DoPoll? then [steps[0].poll] else []) + PollsOf(steps[1..])
  }

  lemma {:induction false} PollsOfAreValid(prev: Snapshot, steps: seq<MonitorStep>)
    requires ValidSteps(prev, steps)
    ensures ValidPolls(prev, PollsOf(steps))
    decreases |steps|
  {
    if steps != [] {
      match steps[0]
      case DoPoll(poll) =>
        PollsOfAreValid(NextSnapshot(prev, poll), steps[1..]);
        assert PollsOf(steps)[1..] == PollsOf(steps[1..]);
      case Take =>
        PollsOfAreValid(prev, steps[1..]);
        assert PollsOf(steps) == PollsOf(steps[1..]);
    }
  }

  /** Conservation: in every interleaving of polls and deliveries the events delivered and
      then those queued are all events of all polls, none lost, repeated or reordered. */
  lemma {:induction false} QueueConserves(m: MonitorState, delivered: seq<NetworkEvent>, steps: seq<MonitorStep>)
    requires ValidSteps(m.prev, steps)
    ensures ValidPolls(m.prev, PollsOf(steps))
    ensures var (final, d) := MonitorRun(m, delivered, steps);
            && d + final.pending == delivered + m.pending + Untag(AllEvents(m.prev, PollsOf(steps)))
            && final.prev == LastSnapshot(m.prev, PollsOf(steps))
    decreases |steps|
  {
    PollsOfAreValid(m.prev, steps);
    if steps == [] {
      assert delivered + m.pending + [] == delivered + m.pending;
    } else {
      var rest := steps[1..];
      match steps[0]
      case DoPoll(poll) =>
        QueueConserves(Polled(m, poll), delivered, rest);
        PollComesFirst(m.prev, poll, PollsOf(rest));
        assert PollsOf(steps) == [poll] + PollsOf(rest);
        QueueSplit(delivered, m.pending, Untag(PollEvents(m.prev, poll)),
                   Untag(AllEvents(NextSnapshot(m.prev, poll), PollsOf(rest))));
      case Take =>
        assert PollsOf(steps) == PollsOf(rest);
        if m.pending == [] {
          QueueConserves(m, delivered, rest);
        } else {
          QueueConserves(m.(pending := m.pending[1..]), delivered + [m.pending[0]], rest);
          assert delivered + [m.pending[0]] + m.pending[1..] == delivered + m.pending;
        }
    }
  }

  lemma PollComesFirst(prev: Snapshot, poll: Poll, rest: seq<Poll>)
    requires ValidPoll(prev, poll) && ValidPolls(NextSnapshot(prev, poll), rest)
    ensures ValidPolls(prev, [poll] + rest)
    ensures Untag(AllEvents(prev, [poll] + rest)) ==
            Untag(PollEvents(prev, poll)) + Untag(AllEvents(NextSnapshot(prev, poll), rest))
    ensures LastSnapshot(prev, [poll] + rest) == LastSnapshot(NextSnapshot(prev, poll), rest)
  {
    assert ([poll] + rest)[1..] == rest;
    UntagConcat(PollEvents(prev, poll), AllEvents(NextSnapshot(prev, poll), rest));
  }

  lemma QueueSplit(a: seq<NetworkEvent>, b: seq<NetworkEvent>, c: seq<NetworkEvent>, d: seq<NetworkEvent>)
    ensures a + (b + c) + d == a + b + (c + d)
  {
  }

  /** A consumer that polls and never takes keeps every event of its life in the queue. */
  lemma {:induction false} UnreadQueueGrows(m: MonitorState, delivered: seq<NetworkEvent>, steps: seq<MonitorStep>)
    requires ValidSteps(m.prev, steps) && Take !in steps
    ensures ValidPolls(m.prev, PollsOf(steps))
    ensures var (final, d) := MonitorRun(m, delivered, steps);
            d == delivered && final.pending == m.pending + Untag(AllEvents(m.prev, PollsOf(steps)))
    decreases |steps|
  {
    QueueConserves(m, delivered, steps);
    NothingTaken(m, delivered, steps);
    var (final, d) := MonitorRun(m, delivered, steps);
    var all := m.pending + Untag(AllEvents(m.prev, PollsOf(steps)));
    assert delivered + final.pending == delivered + all;
    assert final.pending == (delivered + final.pending)[|delivered|..] == (delivered + all)[|delivered|..] == all;
  }

  lemma {:induction false} NothingTaken(m: MonitorState, delivered: seq<NetworkEvent>, steps: seq<MonitorStep>)
    requires ValidSteps(m.prev, steps) && Take !in steps
    ensures MonitorRun(m, delivered, steps).1 == delivered
    decreases |steps|
  {
    if steps != [] {
      assert steps[0] in steps && forall step :: step in steps[1..] ==> step in steps;
      NothingTaken(Polled(m, steps[0].poll), delivered, steps[1..]);
    }
  }
}
