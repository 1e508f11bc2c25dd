/** What a running node knows of the other devices: exactly what the claims and reports it has heard say. */
module NodeLog {
  import opened DeviceIndex
  import opened DeviceLog
  import opened NodeModel
  import opened Wrappers

  /** The log entry an event makes, if it makes one. */
  function EntriesOf(event: Event): seq<Entry> {
    if !event.Receive? then []
    else match event.message
      case AddressClaim(source, name) => [ClaimEntry(source, name)]
      case DeviceReport(source, report) => [ReportEntry(source, report)]
      case _ => []
  }

  /** The claims and reports among the received messages, in order. */
  function Heard(events: seq<Event>): seq<Entry> {
    if events == [] then [] else EntriesOf(events[0]) + Heard(events[1..])
  }

  lemma PassKeepsIndex(node: NodeState)
    ensures Reevaluate(node).0.index == node.index
  {
  }

  /** Receiving a claim or a report changes the index by that entry; nothing else changes it. */
  lemma MessageIndexes(node: NodeState, message: Message)
    ensures Handle(node, message).0.index ==
              match message
              case AddressClaim(source, name) => AfterClaim(node.index, source, name)
              case DeviceReport(source, report) => AfterReport(node.index, source, report)
              case _ => node.index
  {
    if message.AddressClaim? { ClaimIndexes(node, message.source, message.name); }
  }

  lemma YieldKeepsIndex(node: NodeState)
    ensures Yield(node).index == node.index
  {
  }

  lemma ClaimIndexes(node: NodeState, source: Address, name: Name)
    ensures HandleClaim(node, source, name).0.index == AfterClaim(node.index, source, name)
  {
    YieldKeepsIndex(node.(index := AfterClaim(node.index, source, name)));
  }

  lemma CallKeepsIndex(node: NodeState, event: Event)
    requires !event.Receive?
    ensures Effect(node, event).node.index == node.index
  {
    match event
    case ClaimAddress(preferred) => assert AfterClaimAddress(node, preferred).0.index == node.index;
    case _ =>
  }

  lemma StepReplays(node: NodeState, event: Event, log: seq<Entry>)
    requires Enabled(node, event) && node.index == Replay(log)
    ensures Step(node, event).node.index == Replay(log + EntriesOf(event))
  {
    PassKeepsIndex(Effect(node, event).node);
    if event.Receive? { MessageIndexes(node, event.message); } else { CallKeepsIndex(node, event); }
    EntryReplays(log, event);
  }

  lemma EntryReplays(log: seq<Entry>, event: Event)
    ensures Replay(log + EntriesOf(event)) ==
              if EntriesOf(event) == [] then Replay(log) else DeviceLog.After(Replay(log), EntriesOf(event)[0])
  {
    var entries := EntriesOf(event);
    if entries == [] {
      assert log + entries == log;
    } else {
      assert (log + entries)[..|log|] == log && (log + entries)[|log|] == entries[0];
    }
  }

  lemma HeardInTurn(events: seq<Event>, log: seq<Entry>)
    requires events != []
    ensures log + Heard(events) == (log + EntriesOf(events[0])) + Heard(events[1..])
  {
  }

  lemma {:induction false} RunReplays(node: NodeState, events: seq<Event>, log: seq<Entry>, total: seq<Entry>)
    requires ValidRun(node, events) && node.index == Replay(log) && total == log + Heard(events)
    ensures Run(node, events).index == Replay(total)
    decreases |events|
  {
    if events == [] {
      assert total == log;
    } else {
      StepReplays(node, events[0], log);
      HeardInTurn(events, log);
      RunReplays(Step(node, events[0]).node, events[1..], log + EntriesOf(events[0]), total);
    }
  }

  /** Whatever calls, commands, claims, requests and restarts happen meanwhile, the index is that of the log. */
  lemma IndexOfARun(name: Name, arbitrary: bool, infoSet: bool, configReadable: bool, events: seq<Event>)
    requires ValidRun(NewNode(name, arbitrary, infoSet, configReadable), events)
    ensures Run(NewNode(name, arbitrary, infoSet, configReadable), events).index == Replay(Heard(events))
  {
    assert [] + Heard(events) == Heard(events);
    RunReplays(NewNode(name, arbitrary, infoSet, configReadable), events, [], Heard(events));
  }

  /** A listed device shows the facts the log has for it. */
  predicate ShowsFacts(shown: KnownDevice, facts: KnownDevice) {
    && shown.product == facts.product && shown.config == facts.config
    && ShowsList(shown.transmitPgns, facts.transmitPgns) && ShowsList(shown.receivePgns, facts.receivePgns)
  }

  /** What a log says is to be seen: one of its NAMEs on a real address, or a device that has not claimed yet. */
  ghost predicate ToBeSeen(log: seq<Entry>, shown: KnownDevice) {
    || (LastClaim(log, shown.name) >= 0 && shown.address == RecordedAddress(log, shown.name)
        && ShowsFacts(shown, FactsOf(log, shown.name)))
    || (shown.name == 0 && Unnamed(log, shown.address) && ShowsFacts(shown, LearntAt(log, shown.address)))
  }

  /** Somebody is known to be on this address. */
  ghost predicate Occupied(log: seq<Entry>, a: Address) {
    Held(log, a) || Unnamed(log, a)
  }

  lemma NamedIsToBeSeen(log: seq<Entry>, n: Name)
    requires WellSourced(log) && n in Replay(log).devices && Replay(log).devices[n].address <= MAX_ADDRESS
    ensures ToBeSeen(log, Clone(Replay(log).devices[n])) && Occupied(log, Replay(log).devices[n].address)
  {
    IndexIsFoldOfLog(log);
    FactsAreFoldOfLog(log);
    CloneShows(Replay(log).devices[n]);
    assert SameFacts(NamedRecord(Replay(log), n), FactsOf(log, n));
    assert Holds(log, n, Replay(log).devices[n].address);
  }

  lemma UnknownIsToBeSeen(log: seq<Entry>, a: Address)
    requires WellSourced(log) && a in Replay(log).unknown
    ensures ToBeSeen(log, Clone(Replay(log).unknown[a])) && Occupied(log, a) && Replay(log).unknown[a].address == a
  {
    IndexIsFoldOfLog(log);
    FactsAreFoldOfLog(log);
    CloneShows(Replay(log).unknown[a]);
    assert SameFacts(UnknownRecord(Replay(log), a), LearntAt(log, a));
  }

  /** An occupied address has a record. */
  lemma OccupiedIsRecorded(log: seq<Entry>, a: Address)
    requires WellSourced(log) && Occupied(log, a) && a <= MAX_ADDRESS
    ensures a in Replay(log).unknown
            || (a in Replay(log).holders && Replay(log).holders[a] in Replay(log).devices
                && Replay(log).devices[Replay(log).holders[a]].address == a)
  {
    IndexIsFoldOfLog(log);
    HoldersAreHeld(Replay(log), log, a);
  }
}
