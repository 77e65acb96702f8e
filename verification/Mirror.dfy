/** The cached interface state mirrors the polled links: monitor and state together
    (src/monitor/netlink.rs, src/monitor/state.rs, src/daemon/service.rs). */
module Mirror {
  import opened Wrappers
  import opened State
  import opened Netlink

  ghost predicate UniqueNames(s: Snapshot) {
    forall i, j :: i in s && j in s && s[i].name == s[j].name ==> i == j
  }

  ghost predicate KeepsNames(prev: Snapshot, current: Snapshot) {
    forall i :: i in prev && i in current ==> prev[i].name == current[i].name
  }

  /** Every cached interface has a link of its name with the same up state. */
  ghost predicate Mirrors(links: Interfaces, s: Snapshot) {
    forall n :: n in links ==> exists i :: i in s && s[i].name == n && s[i].isUp == links[n].isUp
  }

  /** Names are unique in every snapshot, and a link keeps its name while it exists. */
  ghost predicate WellNamed(prev: Snapshot, polls: seq<Poll>)
    decreases |polls|
  {
    UniqueNames(prev) &&
    (polls == [] ||
     match polls[0]
     case Refused => WellNamed(prev, polls[1..])
     case Took(current, _, _) => KeepsNames(prev, current) && WellNamed(current, polls[1..]))
  }

  /** The link is there in every snapshot of the run. */
  ghost predicate Stays(index: nat, polls: seq<Poll>) {
    forall p :: p in polls && p.Took? ==> index in p.current
  }

  /** What is cached about one name: nothing, or whether it is up. */
  type Status = Option<bool>

  function StatusOf(links: Interfaces, name: string): Status {
    if name in links then Some(links[name].isUp) else None
  }

  function EffectOf(e: NetworkEvent, name: string, status: Status): Status {
    if !e.InterfaceChanged? || e.interface != name || status.None? then status
    else match e.change
      case Up => Some(true)
      case Down => Some(false)
      case Added => status
      case Removed => None
  }

  function Effect(events: seq<NetworkEvent>, name: string, status: Status): Status
    decreases |events|
  {
    if events == [] then status else Effect(events[1..], name, EffectOf(events[0], name, status))
  }

  lemma {:induction false} EffectConcat(a: seq<NetworkEvent>, b: seq<NetworkEvent>, name: string, status: Status)
    ensures Effect(a + b, name, status) == Effect(b, name, Effect(a, name, status))
    decreases |a|
  {
    if a == [] {
      assert a + b == b;
    } else {
      assert (a + b)[1..] == a[1..] + b;
      EffectConcat(a[1..], b, name, EffectOf(a[0], name, status));
    }
  }

  lemma {:induction false} ReplayEffect(links: Interfaces, events: seq<NetworkEvent>, name: string)
    requires forall e :: e in events ==> e.InterfaceChanged?
    ensures StatusOf(Replay(links, events), name) == Effect(events, name, StatusOf(links, name))
    decreases |events|
  {
    if events != [] {
      assert events == [events[0]] + events[1..];
      ReplayEffect(ApplyEvent(links, events[0]), events[1..], name);
    }
  }

  lemma {:induction false} OnlyInterfaceEvents(prev: Snapshot, current: Snapshot, order: seq<nat>)
    ensures (forall i :: i in order ==> i in current) ==>
              forall e :: e in Untag(ChangeEvents(prev, current, order)) ==> e.InterfaceChanged? && e.change != Removed
    ensures (forall i :: i in order ==> i in prev) ==>
              forall e :: e in Untag(RemovedEvents(prev, current, order)) ==> e.InterfaceChanged?
  {
    if order != [] {
      assert order == [order[0]] + order[1..];
      OnlyInterfaceEvents(prev, current, order[1..]);
      if forall i :: i in order ==> i in current {
        UntagConcat(ChangeEvent(prev, current, order[0]), ChangeEvents(prev, current, order[1..]));
      }
      if forall i :: i in order ==> i in prev {
        UntagConcat(RemovedEvent(prev, current, order[0]), RemovedEvents(prev, current, order[1..]));
      }
    }
  }

  lemma {:induction false} NoRemovalKeepsKnown(events: seq<NetworkEvent>, name: string, status: Status)
    requires forall e :: e in events ==> e.InterfaceChanged? && e.change != Removed
    ensures Effect(events, name, status).Some? == status.Some?
    decreases |events|
  {
    if events != [] {
      assert events == [events[0]] + events[1..];
      NoRemovalKeepsKnown(events[1..], name, EffectOf(events[0], name, status));
    }
  }

  lemma {:induction false} ChangesEffect(prev: Snapshot, current: Snapshot, order: seq<nat>, index: nat, up: bool)
    requires UniqueNames(current) && index in prev && index in current
    requires forall i :: i in order ==> i in current
    requires up == prev[index].isUp || up == current[index].isUp
    ensures Effect(Untag(ChangeEvents(prev, current, order)), current[index].name, Some(up)) ==
            Some(if index in order then current[index].isUp else up)
    decreases |order|
  {
    if order != [] {
      var name := current[index].name;
      var first := Untag(ChangeEvent(prev, current, order[0]));
      assert order == [order[0]] + order[1..];
      UntagConcat(ChangeEvent(prev, current, order[0]), ChangeEvents(prev, current, order[1..]));
      EffectConcat(first, Untag(ChangeEvents(prev, current, order[1..])), name, Some(up));
      var next := if index == order[0] then current[index].isUp else up;
      assert Effect(first, name, Some(up)) == Some(next);
      ChangesEffect(prev, current, order[1..], index, next);
    }
  }

  lemma {:induction false} RemovalsEffect(prev: Snapshot, current: Snapshot, order: seq<nat>, name: string,
      status: Status)
    requires forall i :: i in order ==> i in prev
    ensures Effect(Untag(RemovedEvents(prev, current, order)), name, status) ==
            if exists i :: i in order && i !in current && prev[i].name == name then None else status
    decreases |order|
  {
    if order != [] {
      var first := Untag(RemovedEvent(prev, current, order[0]));
      assert order == [order[0]] + order[1..];
      UntagConcat(RemovedEvent(prev, current, order[0]), RemovedEvents(prev, current, order[1..]));
      EffectConcat(first, Untag(RemovedEvents(prev, current, order[1..])), name, status);
      var next := if order[0] !in current && prev[order[0]].name == name then None else status;
      assert Effect(first, name, status) == next;
      RemovalsEffect(prev, current, order[1..], name, next);
    }
  }

  /** One poll, one name: a cached interface whose link stays gets the link's new state, and
      one whose link is gone is dropped, even when its name is back under a new index. */
  lemma PollEffect(prev: Snapshot, current: Snapshot, order: seq<nat>, prevOrder: seq<nat>, index: nat)
    requires Walks(order, current) && Walks(prevOrder, prev)
    requires UniqueNames(prev) && UniqueNames(current) && KeepsNames(prev, current)
    requires index in prev
    ensures Effect(Untag(Diff(prev, current, order, prevOrder)), prev[index].name, Some(prev[index].isUp)) ==
            if index in current then Some(current[index].isUp) else None
  {
    var name := prev[index].name;
    var changes, removals := Untag(ChangeEvents(prev, current, order)), Untag(RemovedEvents(prev, current, prevOrder));
    UntagConcat(ChangeEvents(prev, current, order), RemovedEvents(prev, current, prevOrder));
    EffectConcat(changes, removals, name, Some(prev[index].isUp));
    OnlyInterfaceEvents(prev, current, order);
    NoRemovalKeepsKnown(changes, name, Some(prev[index].isUp));
    RemovalsEffect(prev, current, prevOrder, name, Effect(changes, name, Some(prev[index].isUp)));
    if index in current {
      ChangesEffect(prev, current, order, index, prev[index].isUp);
    } else {
      assert index in prevOrder;
    }
  }

  lemma {:induction false} UnknownStaysUnknown(events: seq<NetworkEvent>, name: string)
    ensures Effect(events, name, None) == None
    decreases |events|
  {
    if events != [] {
      UnknownStaysUnknown(events[1..], name);
    }
  }

  lemma PollReplay(links: Interfaces, prev: Snapshot, current: Snapshot, order: seq<nat>, prevOrder: seq<nat>,
      name: string)
    requires Walks(order, current) && Walks(prevOrder, prev)
    ensures StatusOf(Replay(links, Untag(Diff(prev, current, order, prevOrder))), name) ==
            Effect(Untag(Diff(prev, current, order, prevOrder)), name, StatusOf(links, name))
  {
    OnlyInterfaceEvents(prev, current, order);
    OnlyInterfaceEvents(prev, current, prevOrder);
    UntagConcat(ChangeEvents(prev, current, order), RemovedEvents(prev, current, prevOrder));
    ReplayEffect(links, Untag(Diff(prev, current, order, prevOrder)), name);
  }

  lemma {:induction false} ReplayConcat(links: Interfaces, a: seq<NetworkEvent>, b: seq<NetworkEvent>)
    ensures Replay(links, a + b) == Replay(Replay(links, a), b)
    decreases |a|
  {
    if a == [] {
      assert a + b == b;
    } else {
      assert (a + b)[1..] == a[1..] + b;
      ReplayConcat(ApplyEvent(links, a[0]), a[1..], b);
    }
  }

  lemma PollMirrors(links: Interfaces, prev: Snapshot, current: Snapshot, order: seq<nat>, prevOrder: seq<nat>)
    requires Mirrors(links, prev) && Walks(order, current) && Walks(prevOrder, prev)
    requires UniqueNames(prev) && UniqueNames(current) && KeepsNames(prev, current)
    ensures Mirrors(Replay(links, Untag(Diff(prev, current, order, prevOrder))), current)
  {
    var events := Untag(Diff(prev, current, order, prevOrder));
    forall n | n in Replay(links, events)
      ensures exists i :: i in current && current[i].name == n && current[i].isUp == Replay(links, events)[n].isUp
    {
      PollReplay(links, prev, current, order, prevOrder, n);
      UnknownStaysUnknown(events, n);
      var i :| i in prev && prev[i].name == n && prev[i].isUp == links[n].isUp;
      PollEffect(prev, current, order, prevOrder, i);
      assert i in current && current[i].name == n;
    }
  }

  /** The mirror holds after any number of polls, in every iteration order, and the names
      still cached are exactly those whose first link is in every snapshot of the run. */
  lemma {:induction false} StateMirrorsLinks(links: Interfaces, prev: Snapshot, polls: seq<Poll>)
    requires ValidPolls(prev, polls) && WellNamed(prev, polls) && Mirrors(links, prev)
    ensures var final := Replay(links, Untag(AllEvents(prev, polls)));
            && Mirrors(final, LastSnapshot(prev, polls))
            && (forall i :: i in prev && prev[i].name in links ==> (prev[i].name in final <==> Stays(i, polls)))
            && final.Keys <= links.Keys
    decreases |polls|
  {
    if polls != [] {
      assert polls == [polls[0]] + polls[1..];
      match polls[0]
      case Refused =>
        assert AllEvents(prev, polls) == AllEvents(prev, polls[1..]);
        StateMirrorsLinks(links, prev, polls[1..]);
      case Took(current, order, prevOrder) =>
        var diff := Diff(prev, current, order, prevOrder);
        var next := Replay(links, Untag(diff));
        PollMirrors(links, prev, current, order, prevOrder);
        UntagConcat(diff, AllEvents(current, polls[1..]));
        ReplayConcat(links, Untag(diff), Untag(AllEvents(current, polls[1..])));
        StateMirrorsLinks(next, current, polls[1..]);
        var final := Replay(links, Untag(AllEvents(prev, polls)));
        forall n | n in next ensures n in links {
          PollReplay(links, prev, current, order, prevOrder, n);
          UnknownStaysUnknown(Untag(diff), n);
        }
        forall i | i in prev && prev[i].name in links
          ensures prev[i].name in final <==> Stays(i, polls)
        {
          SameStatus(links, prev, i);
          PollReplay(links, prev, current, order, prevOrder, prev[i].name);
          PollEffect(prev, current, order, prevOrder, i);
          assert prev[i].name in next <==> i in current;
        }
    }
  }

  lemma SameStatus(links: Interfaces, s: Snapshot, index: nat)
    requires Mirrors(links, s) && UniqueNames(s) && index in s && s[index].name in links
    ensures links[s[index].name].isUp == s[index].isUp
  {
  }
}
