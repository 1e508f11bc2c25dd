/**
  What the claim protocol comes to when the API is left alone: every schedule of
  deliveries and ticks ends, nobody shares an address, and the smallest NAME on
  an address keeps it.
 */
module ClaimConvergence {
  import opened DeviceIndex
  import opened NodeModel
  import opened ClaimNetwork

  predicate Quiet(event: NetEvent) {
    event.Deliver? || event.Tick?
  }

  function Names(net: Net): seq<Name> {
    seq(|net.nodes|, k requires 0 <= k < |net.nodes| => net.nodes[k].name)
  }

  /** How many of the names have priority over `name`. */
  function Rank(names: seq<Name>, name: Name): (r: nat)
    ensures r <= |names|
  {
    if names == [] then 0 else (if names[0] < name then 1 else 0) + Rank(names[1..], name)
  }

  lemma {:induction false} RankOrdersNames(names: seq<Name>, smaller: Name, larger: Name)
    requires smaller <= larger
    ensures Rank(names, smaller) <= Rank(names, larger)
    ensures smaller in names && smaller < larger ==> Rank(names, smaller) < Rank(names, larger)
  {
    if names != [] {
      assert names == [names[0]] + names[1..];
      RankOrdersNames(names[1..], smaller, larger);
    }
  }

  lemma {:induction false} RankOfMember(names: seq<Name>, name: Name)
    requires name in names
    ensures Rank(names, name) < |names|
  {
    assert names == [names[0]] + names[1..];
    if name in names[1..] { RankOfMember(names[1..], name); }
  }

  /** k * w, as a sum the solver reads step by step. */
  function Times(k: nat, w: nat): (total: nat)
  {
    if k == 0 then 0 else w + Times(k - 1, w)
  }

  lemma {:induction false} TimesGrows(k: nat, v: nat, w: nat)
    requires v <= w
    ensures Times(k, v) <= Times(k, w)
    ensures Times(k, v + 1) == Times(k, v) + k
  {
    if k > 0 { TimesGrows(k - 1, v, w); }
  }

  /** W(0) = 1 and W(r + 1) = 1 + (n - 1) W(r): a message outweighs every answer it can provoke. */
  function W(n: nat, r: nat): (w: nat)
    requires n >= 1
    ensures w >= 1
  {
    if r == 0 then 1 else 1 + Times(n - 1, W(n, r - 1))
  }

  lemma {:induction false} WGrows(n: nat, r: nat, s: nat)
    requires n >= 1 && r <= s
    ensures W(n, r) <= W(n, s)
    decreases s
  {
    if r < s && r > 0 {
      WGrows(n, r - 1, s - 1);
      TimesGrows(n - 1, W(n, r - 1), W(n, s - 1));
    }
  }

  lemma AnswersWeighLess(n: nat, r: nat, s: nat)
    requires n >= 1 && r < s
    ensures 1 + Times(n - 1, W(n, r)) <= W(n, s)
  {
    WGrows(n, r, s - 1);
    TimesGrows(n - 1, W(n, r), W(n, s - 1));
  }

  function Weight(names: seq<Name>, message: Message): (w: nat)
    requires names != []
    ensures w >= 1
  {
    match message
    case AddressClaim(_, name) => W(|names|, Rank(names, name))
    case CommandedAddress(_, _) => W(|names|, |names|)
    case IsoRequest(_, _, _) => W(|names|, |names|)
    case _ => 1
  }

  function InboxWeight(names: seq<Name>, inbox: seq<Message>): nat
    requires names != []
  {
    if inbox == [] then 0 else Weight(names, inbox[0]) + InboxWeight(names, inbox[1..])
  }

  function TotalWeight(names: seq<Name>, inboxes: seq<seq<Message>>): nat
    requires names != []
  {
    if inboxes == [] then 0
    else TotalWeight(names, inboxes[..|inboxes| - 1]) + InboxWeight(names, inboxes[|inboxes| - 1])
  }

  lemma {:induction false} InboxWeightOfAppend(names: seq<Name>, inbox: seq<Message>, message: Message)
    requires names != []
    ensures InboxWeight(names, inbox + [message]) == InboxWeight(names, inbox) + Weight(names, message)
  {
    if inbox == [] {
      assert inbox + [message] == [message];
    } else {
      assert (inbox + [message])[1..] == inbox[1..] + [message];
      InboxWeightOfAppend(names, inbox[1..], message);
    }
  }

  lemma {:induction false} DroppingHeadLightens(names: seq<Name>, inboxes: seq<seq<Message>>, k: nat)
    requires names != [] && k < |inboxes| && inboxes[k] != []
    ensures TotalWeight(names, inboxes[k := inboxes[k][1..]]) + Weight(names, inboxes[k][0]) == TotalWeight(names, inboxes)
  {
    var last := |inboxes| - 1;
    var after := inboxes[k := inboxes[k][1..]];
    if k == last {
      assert after[..last] == inboxes[..last];
    } else {
      assert after[..last] == inboxes[..last][k := inboxes[k][1..]];
      DroppingHeadLightens(names, inboxes[..last], k);
    }
  }

  /** One claim broadcast by k adds at most its weight to each of the other inboxes. */
  lemma {:induction false} BroadcastBound(
    names: seq<Name>, before: seq<seq<Message>>, after: seq<seq<Message>>, k: nat, claim: Message)
    requires names != [] && |before| == |after|
    requires forall j :: 0 <= j < |before| ==> after[j] == before[j] || (j != k && after[j] == before[j] + [claim])
    ensures TotalWeight(names, after) <=
              TotalWeight(names, before) + Times(if k < |before| then |before| - 1 else |before|, Weight(names, claim))
  {
    if before != [] {
      var last := |before| - 1;
      BroadcastBound(names, before[..last], after[..last], k, claim);
      InboxWeightOfAppend(names, before[last], claim);
    }
  }

  function TickingCount(nodes: seq<NodeState>): (c: nat)
    ensures c <= |nodes|
  {
    if nodes == [] then 0
    else TickingCount(nodes[..|nodes| - 1]) + if nodes[|nodes| - 1].ticking then 1 else 0
  }

  lemma {:induction false} TickLowersCount(nodes: seq<NodeState>, k: nat, node: NodeState)
    requires k < |nodes| && nodes[k].ticking && !node.ticking
    ensures TickingCount(nodes[k := node]) + 1 == TickingCount(nodes)
  {
    var last := |nodes| - 1;
    if k == last {
      assert nodes[k := node][..last] == nodes[..last];
    } else {
      assert nodes[k := node][..last] == nodes[..last][k := node];
      TickLowersCount(nodes[..last], k, node);
    }
  }

  /** Bounds the number of deliveries and ticks still to come. */
  function Measure(net: Net): nat
    requires net.nodes != []
  {
    Times(|net.nodes| + 1, TotalWeight(Names(net), net.inboxes)) + TickingCount(net.nodes)
  }

  /** No inbox holds a claim under its owner's own NAME. */
  predicate OwnFree(net: Net)
    requires WellShaped(net)
  {
    forall k, m :: 0 <= k < |net.nodes| && net.nodes[k].infoSet && m in net.inboxes[k] && m.AddressClaim? ==>
      m.name != net.nodes[k].name
  }

  /** None of the nodes moves to another address when it loses its own. */
  predicate Fixed(net: Net) {
    forall k :: 0 <= k < |net.nodes| ==> !net.nodes[k].arbitrary
  }

  ghost predicate Converging(net: Net) {
    Safe(net) && OwnFree(net) && Fixed(net) && net.nodes != []
  }

  /** A node that cannot move answers one delivery with at most one claim, under its own NAME. */
  lemma OneClaimPerStep(node: NodeState, event: Event)
    requires Settled(node) && Enabled(node, event) && !node.arbitrary
    requires event.Receive? || event.ClaimTick?
    ensures var outcome := Step(node, event);
            && (Claims(outcome.outputs) == [] || Claims(outcome.outputs) == [AddressClaim(outcome.node.address, node.name)])
            && (Claims(outcome.outputs) != [] ==>
                  && node.infoSet && event.Receive?
                  && match event.message
                     case AddressClaim(_, name) => node.name <= name
                     case CommandedAddress(_, _) => true
                     case IsoRequest(_, _, _) => true
                     case _ => false)
            && (event.ClaimTick? ==> node.ticking && !outcome.node.ticking)
  {
    var outcome := Step(node, event);
    if event.Receive? && event.message.AddressClaim? {
      HearingAClaim(node, event.message.source, event.message.name);
    } else if event.Receive? {
      MessageKeepsSettled(node, event.message);
    }
    if outcome.outputs != [] {
      OutputsCarryTheAddress(node, event, 0);
      assert outcome.outputs == [outcome.outputs[0]] + outcome.outputs[1..];
    }
  }

  lemma BroadcastOfNothing(net: Net, k: nat)
    requires WellShaped(net)
    ensures Broadcast(net, k, []) == net.inboxes
  {
    forall j | 0 <= j < |net.inboxes| ensures Broadcast(net, k, [])[j] == net.inboxes[j] {
      assert net.inboxes[j] + [] == net.inboxes[j];
    }
  }

  /** The copies of an answer weigh less together than the message that provoked it. */
  lemma AnswerIsLighter(net: Net, k: nat, message: Message)
    requires Converging(net) && k < |net.nodes| && message in net.inboxes[k]
    requires Enabled(net.nodes[k], Receive(message))
    requires Claims(Step(net.nodes[k], Receive(message)).outputs) != []
    ensures var names := Names(net);
            Times(|names| - 1, W(|names|, Rank(names, net.nodes[k].name))) < Weight(names, message)
  {
    var names := Names(net);
    var name := net.nodes[k].name;
    OneClaimPerStep(net.nodes[k], Receive(message));
    assert names[k] == name;
    RankOfMember(names, name);
    if message.AddressClaim? {
      assert message.name != name;
      RankOrdersNames(names, name, message.name);
      AnswersWeighLess(|names|, Rank(names, name), Rank(names, message.name));
    } else {
      AnswersWeighLess(|names|, Rank(names, name), |names|);
    }
  }

  lemma AnswerIsSingle(net: Net, k: nat, message: Message)
    requires Converging(net) && k < |net.nodes| && Enabled(net.nodes[k], Receive(message))
    ensures var claims := Claims(Step(net.nodes[k], Receive(message)).outputs);
            claims == [] || (|claims| == 1 && claims == [claims[0]]
              && Weight(Names(net), claims[0]) == W(|net.nodes|, Rank(Names(net), net.nodes[k].name)))
  {
    OneClaimPerStep(net.nodes[k], Receive(message));
  }

  lemma LightAnswerFits(names: seq<Name>, net: Net, k: nat, claims: seq<Message>, budget: nat)
    requires WellShaped(net) && |names| == |net.nodes| && k < |names| && budget > 0
    requires claims == [] || (claims == [claims[0]] && Times(|names| - 1, Weight(names, claims[0])) < budget)
    ensures TotalWeight(names, Broadcast(net, k, claims)) < TotalWeight(names, net.inboxes) + budget
  {
    if claims == [] {
      BroadcastOfNothing(net, k);
    } else {
      BroadcastBound(names, net.inboxes, Broadcast(net, k, claims), k, claims[0]);
    }
  }

  lemma DeliveryLightens(net: Net, k: nat)
    requires Converging(net) && Possible(net, Deliver(k))
    ensures TotalWeight(Names(net), NetStep(net, Deliver(k)).inboxes) < TotalWeight(Names(net), net.inboxes)
  {
    var names := Names(net);
    var message := net.inboxes[k][0];
    var dropped := DropHead(net, k);
    var claims := Claims(Step(net.nodes[k], Receive(message)).outputs);
    assert NetStep(net, Deliver(k)).inboxes == Broadcast(dropped, k, claims);
    DroppingHeadLightens(names, net.inboxes, k);
    AnswerIsSingle(net, k, message);
    if claims != [] {
      AnswerIsLighter(net, k, message);
    }
    LightAnswerFits(names, dropped, k, claims, Weight(names, message));
  }

  /** Foreign devices do not claim under the NAME of a node. */
  predicate Genuine(net: Net, event: NetEvent) {
    event.Foreign? && event.message.AddressClaim? ==>
      forall k :: 0 <= k < |net.nodes| && net.nodes[k].infoSet ==> net.nodes[k].name != event.message.name
  }

  lemma LocalKeepsOwnFree(net: Net, k: nat, local: Event)
    requires WellShaped(net) && Distinct(net.nodes) && OwnFree(net) && k < |net.nodes|
    requires Settled(net.nodes[k]) && Enabled(net.nodes[k], local)
    ensures OwnFree(Local(net, k, local))
  {
    var outcome := Step(net.nodes[k], local);
    var after := Local(net, k, local);
    StepKeepsSettled(net.nodes[k], local);
    forall j, m | 0 <= j < |after.nodes| && after.nodes[j].infoSet && m in after.inboxes[j] && m.AddressClaim?
      ensures m.name != after.nodes[j].name
    {
      if m !in net.inboxes[j] {
        assert m in Claims(outcome.outputs);
        var i :| 0 <= i < |outcome.outputs| && outcome.outputs[i] == ClaimOut(m.source, m.name);
        OutputsCarryTheAddress(net.nodes[k], local, i);
      }
    }
  }

  lemma GenuineStepKeepsOwnFree(net: Net, event: NetEvent)
    requires Safe(net) && OwnFree(net) && Possible(net, event) && Genuine(net, event)
    ensures OwnFree(NetStep(net, event))
    ensures Fixed(net) ==> Fixed(NetStep(net, event))
  {
    var k := event.k;
    match event
    case Api(_, call) =>
      LocalKeepsOwnFree(net, k, call);
      StepKeepsSettled(net.nodes[k], call);
    case Deliver(_) =>
      assert net.inboxes[k] == [net.inboxes[k][0]] + net.inboxes[k][1..];
      LocalKeepsOwnFree(DropHead(net, k), k, Receive(net.inboxes[k][0]));
      StepKeepsSettled(net.nodes[k], Receive(net.inboxes[k][0]));
    case Tick(_) =>
      LocalKeepsOwnFree(net, k, ClaimTick);
      StepKeepsSettled(net.nodes[k], ClaimTick);
    case Foreign(_, _) =>
  }
  lemma QuietStepKeepsConverging(net: Net, event: NetEvent)
    requires Converging(net) && Possible(net, event) && Quiet(event)
    ensures Converging(NetStep(net, event)) && Names(NetStep(net, event)) == Names(net)
  {
    var k := event.k;
    StepKeepsSafe(net, event);
    GenuineStepKeepsOwnFree(net, event);
    StepKeepsSettled(net.nodes[k], if event.Tick? then ClaimTick else Receive(net.inboxes[k][0]));
  }

  lemma LighterMeasuresLess(n: nat, lighter: nat, heavier: nat, ticking: nat)
    requires lighter < heavier && ticking < n
    ensures Times(n, lighter) + ticking < Times(n, heavier)
  {
    TimesGrows(n, lighter, heavier);
    TimesGrows(n, lighter + 1, heavier);
  }

  lemma TickLowersMeasure(net: Net, k: nat)
    requires Converging(net) && Possible(net, Tick(k))
    ensures NetStep(net, Tick(k)).inboxes == net.inboxes
    ensures TickingCount(NetStep(net, Tick(k)).nodes) < TickingCount(net.nodes)
  {
    OneClaimPerStep(net.nodes[k], ClaimTick);
    BroadcastOfNothing(net, k);
    TickLowersCount(net.nodes, k, Step(net.nodes[k], ClaimTick).node);
  }

  lemma QuietStepLowersMeasure(net: Net, event: NetEvent)
    requires Converging(net) && Possible(net, event) && Quiet(event)
    ensures Measure(NetStep(net, event)) < Measure(net)
  {
    QuietStepKeepsConverging(net, event);
    var after := NetStep(net, event);
    if event.Deliver? {
      DeliveryLightens(net, event.k);
      LighterMeasuresLess(|net.nodes| + 1, TotalWeight(Names(net), after.inboxes),
                          TotalWeight(Names(net), net.inboxes), TickingCount(after.nodes));
    } else {
      TickLowersMeasure(net, event.k);
    }
  }

  /** Nothing is left to deliver or to wait for. */
  predicate AtRest(net: Net)
    requires WellShaped(net)
  {
    forall k :: 0 <= k < |net.nodes| && net.nodes[k].started ==>
      net.inboxes[k] == [] && net.nodes[k].state != Claiming
  }

  predicate QuietRun(net: Net, events: seq<NetEvent>)
    requires WellShaped(net)
  {
    PossibleRun(net, events) && forall i :: 0 <= i < |events| ==> Quiet(events[i])
  }

  /** Every schedule of deliveries and claim ticks ends within the measure of the state it starts from. */
  lemma {:induction false} QuietRunsEnd(net: Net, events: seq<NetEvent>)
    requires Converging(net) && QuietRun(net, events)
    ensures |events| + Measure(After(net, events)) <= Measure(net)
    ensures Converging(After(net, events))
    decreases |events|
  {
    if events != [] {
      assert Quiet(events[0]);
      QuietStepKeepsConverging(net, events[0]);
      QuietStepLowersMeasure(net, events[0]);
      assert forall i | 0 <= i < |events[1..]| :: events[1..][i] == events[i + 1];
      QuietRunsEnd(NetStep(net, events[0]), events[1..]);
    }
  }

  /** A network at rest has unique addresses, all of them claimed; any other network has a step to take. */
  lemma RestIsResolved(net: Net)
    requires Converging(net)
    requires forall k, m :: 0 <= k < |net.nodes| && m in net.inboxes[k] ==> Decodable(m)
    ensures AtRest(net) ==> UniqueAddresses(net)
    ensures AtRest(net) ==> forall k :: 0 <= k < |net.nodes| && Active(net.nodes[k]) ==> net.nodes[k].state == Claimed
    ensures !AtRest(net) <==> exists event :: Possible(net, event) && Quiet(event)
  {
    if AtRest(net) {
      forall i, j | 0 <= i < |net.nodes| && 0 <= j < |net.nodes| ensures !Conflict(net, i, j) {
        assert Conflict(net, i, j) ==> Resolving(net, i, j);
      }
    } else {
      var k :| 0 <= k < |net.nodes| && net.nodes[k].started && (net.inboxes[k] != [] || net.nodes[k].state == Claiming);
      if net.inboxes[k] != [] {
        assert net.inboxes[k][0] in net.inboxes[k];
        assert Possible(net, Deliver(k));
      } else {
        assert Possible(net, Tick(k));
      }
    }
  }

  /** Everything on the bus has passed a decoder. */
  ghost predicate AllDecodable(net: Net)
    requires WellShaped(net)
  {
    forall k, m :: 0 <= k < |net.nodes| && m in net.inboxes[k] ==> Decodable(m)
  }

  lemma StepKeepsDecodable(net: Net, event: NetEvent)
    requires WellShaped(net) && AllDecodable(net) && Possible(net, event)
    ensures AllDecodable(NetStep(net, event))
  {
    var after := NetStep(net, event);
    forall j, m | 0 <= j < |after.nodes| && m in after.inboxes[j] ensures Decodable(m) {
      if m !in net.inboxes[j] { assert m.AddressClaim? || event == Foreign(j, m); }
    }
  }

  lemma {:induction false} RunKeepsDecodable(net: Net, events: seq<NetEvent>)
    requires WellShaped(net) && AllDecodable(net) && PossibleRun(net, events)
    ensures AllDecodable(After(net, events))
    decreases |events|
  {
    if events != [] {
      StepKeepsDecodable(net, events[0]);
      RunKeepsDecodable(NetStep(net, events[0]), events[1..]);
    }
  }

  lemma QuietRunExtends(net: Net, first: NetEvent, rest: seq<NetEvent>)
    requires WellShaped(net) && Possible(net, first) && Quiet(first) && QuietRun(NetStep(net, first), rest)
    ensures QuietRun(net, [first] + rest) && After(net, [first] + rest) == After(NetStep(net, first), rest)
  {
    assert ([first] + rest)[1..] == rest;
    forall i | 0 <= i < |[first] + rest| ensures Quiet(([first] + rest)[i]) {
      if i > 0 { assert ([first] + rest)[i] == rest[i - 1]; }
    }
  }

  /** Deliveries and ticks alone lead to rest, within the measure. */
  lemma {:induction false} RestIsReached(net: Net) returns (events: seq<NetEvent>)
    requires Converging(net) && AllDecodable(net)
    ensures QuietRun(net, events) && AtRest(After(net, events)) && |events| <= Measure(net)
    decreases Measure(net)
  {
    RestIsResolved(net);
    if AtRest(net) {
      events := [];
    } else {
      var first :| Possible(net, first) && Quiet(first);
      QuietStepKeepsConverging(net, first);
      QuietStepLowersMeasure(net, first);
      StepKeepsDecodable(net, first);
      var rest := RestIsReached(NetStep(net, first));
      QuietRunExtends(net, first, rest);
      events := [first] + rest;
    }
  }

  /** No inbox tells a node to move. */
  predicate Uncommanded(net: Net)
    requires WellShaped(net)
  {
    forall k, m :: 0 <= k < |net.nodes| && m in net.inboxes[k] ==> !m.CommandedAddress?
  }

  /** Node i is on an address, and nobody with priority over it is there or has a claim under way to it. */
  ghost predicate Champion(net: Net, i: nat)
    requires WellShaped(net)
  {
    && i < |net.nodes| && Active(net.nodes[i])
    && (forall m :: m in net.inboxes[i] && m.AddressClaim? && m.source == net.nodes[i].address ==>
          net.nodes[i].name < m.name)
    && (forall j :: 0 <= j < |net.nodes| && Conflict(net, i, j) ==> net.nodes[i].name < net.nodes[j].name)
  }

  /** Without commands a fixed node never moves onto an address, and claims only the one it is on. */
  lemma FixedNodesOnlyLeave(node: NodeState, event: Event)
    requires Settled(node) && Enabled(node, event) && !node.arbitrary
    requires event.ClaimTick? || (event.Receive? && !event.message.CommandedAddress?)
    ensures var outcome := Step(node, event);
            && (Active(outcome.node) ==> Active(node) && outcome.node.address == node.address)
            && (Claims(outcome.outputs) != [] ==> Active(node) && outcome.node.address == node.address)
            && (Active(node) && !(event.Receive? && event.message.AddressClaim?
                                  && event.message.source == node.address && event.message.name < node.name) ==>
                  Active(outcome.node))
  {
    OneClaimPerStep(node, event);
    if event.Receive? && event.message.AddressClaim? {
      HearingAClaim(node, event.message.source, event.message.name);
    } else if event.Receive? {
      MessageKeepsSettled(node, event.message);
    }
  }

  lemma QuietStepKeepsUncommanded(net: Net, event: NetEvent)
    requires Converging(net) && Uncommanded(net) && Possible(net, event) && Quiet(event)
    ensures Uncommanded(NetStep(net, event))
  {
    var k := event.k;
    var local := if event.Tick? then ClaimTick else Receive(net.inboxes[k][0]);
    OneClaimPerStep(net.nodes[k], local);
  }

  /** What a quiet step puts into an inbox is the claim of a node for the address it is on. */
  lemma NewsIsAClaim(net: Net, event: NetEvent, i: nat, m: Message)
    requires Converging(net) && Uncommanded(net) && Possible(net, event) && Quiet(event) && i < |net.nodes|
    requires m in NetStep(net, event).inboxes[i] && m !in net.inboxes[i]
    ensures event.k != i && Active(net.nodes[event.k]) && m == ClaimBy(net.nodes[event.k])
  {
    var k := event.k;
    var local := if event.Tick? then ClaimTick else Receive(net.inboxes[k][0]);
    if event.Deliver? { assert net.inboxes[k][0] in net.inboxes[k]; }
    assert m in Claims(Step(net.nodes[k], local).outputs);
    FixedNodesOnlyLeave(net.nodes[k], local);
    OneClaimPerStep(net.nodes[k], local);
  }

  lemma QuietStepKeepsChampion(net: Net, event: NetEvent, i: nat)
    requires Converging(net) && Uncommanded(net) && Champion(net, i)
    requires Possible(net, event) && Quiet(event)
    ensures Champion(NetStep(net, event), i)
    ensures NetStep(net, event).nodes[i].address == net.nodes[i].address
  {
    var k := event.k;
    var local := if event.Tick? then ClaimTick else Receive(net.inboxes[k][0]);
    var after := NetStep(net, event);
    if event.Deliver? { assert net.inboxes[k][0] in net.inboxes[k]; }
    FixedNodesOnlyLeave(net.nodes[k], local);
    StepKeepsSettled(net.nodes[k], local);
    forall m | m in after.inboxes[i] && m !in net.inboxes[i]
      ensures k != i && Active(net.nodes[k]) && m == ClaimBy(net.nodes[k])
    {
      NewsIsAClaim(net, event, i, m);
    }
    forall j | 0 <= j < |net.nodes| && Conflict(after, i, j) ensures net.nodes[i].name < after.nodes[j].name {
      assert Conflict(net, i, j);
    }
    if k != i && Active(net.nodes[k]) && net.nodes[k].address == net.nodes[i].address {
      assert Conflict(net, i, k);
    }
  }

  /** The smallest NAME on an address keeps it through every schedule, and at rest has it to itself. */
  lemma {:induction false} SmallestNameKeepsTheAddress(net: Net, events: seq<NetEvent>, i: nat)
    requires Converging(net) && Uncommanded(net) && Champion(net, i) && QuietRun(net, events)
    ensures var after := After(net, events);
            && Active(after.nodes[i]) && after.nodes[i].address == net.nodes[i].address
            && after.nodes[i].name == net.nodes[i].name
            && (AtRest(after) ==> after.nodes[i].state == Claimed)
            && (AtRest(after) ==> forall j :: 0 <= j < |net.nodes| && j != i && Active(after.nodes[j]) ==>
                  after.nodes[j].address != net.nodes[i].address)
    decreases |events|
  {
    if events == [] {
      forall j | 0 <= j < |net.nodes| && AtRest(net) && j != i && Active(net.nodes[j])
        ensures net.nodes[j].address != net.nodes[i].address
      {
        assert Conflict(net, i, j) ==> Resolving(net, i, j);
      }
    } else {
      assert Quiet(events[0]);
      QuietStepKeepsConverging(net, events[0]);
      QuietStepKeepsUncommanded(net, events[0]);
      QuietStepKeepsChampion(net, events[0], i);
      assert Names(net)[i] == Names(NetStep(net, events[0]))[i];
      assert forall j | 0 <= j < |events[1..]| :: events[1..][j] == events[j + 1];
      SmallestNameKeepsTheAddress(NetStep(net, events[0]), events[1..], i);
    }
  }

  predicate GenuineRun(net: Net, events: seq<NetEvent>)
    requires WellShaped(net) && PossibleRun(net, events)
    decreases |events|
  {
    events == [] || (Genuine(net, events[0]) && GenuineRun(NetStep(net, events[0]), events[1..]))
  }

  /** Any genuine history of fixed nodes leaves a network that converges. */
  lemma {:induction false} HistoryLeadsToConvergence(net: Net, history: seq<NetEvent>)
    requires net.nodes != [] && Fixed(net) && (Initial(net) || Converging(net))
    requires PossibleRun(net, history) && GenuineRun(net, history)
    ensures Converging(After(net, history))
    decreases |history|
  {
    if history != [] {
      StepKeepsSafe(net, history[0]);
      GenuineStepKeepsOwnFree(net, history[0]);
      HistoryLeadsToConvergence(NetStep(net, history[0]), history[1..]);
    }
  }

  /** Rest with everything resolved. */
  predicate Resolved(net: Net)
    requires WellShaped(net)
  {
    && AtRest(net) && UniqueAddresses(net)
    && forall k :: 0 <= k < |net.nodes| && Active(net.nodes[k]) ==> net.nodes[k].state == Claimed
  }

  lemma ConvergingIsResolvedAtRest(net: Net)
    requires Converging(net) && AllDecodable(net)
    ensures Resolved(net) <==> AtRest(net)
    ensures !AtRest(net) ==> exists event :: Possible(net, event) && Quiet(event)
    ensures exists events :: QuietRun(net, events) && Resolved(After(net, events))
  {
    RestIsResolved(net);
    var events := RestIsReached(net);
    QuietRunsEnd(net, events);
    RunKeepsDecodable(net, events);
    RestIsResolved(After(net, events));
  }

  /**
    After any genuine history of fixed nodes, deliveries and ticks, however they
    are scheduled, end within a bound known at that moment; they can go on until
    the network is at rest, and they do lead there; and at rest every active
    node has claimed an address of its own.
   */
  lemma EveryHistoryConverges(net: Net, history: seq<NetEvent>, events: seq<NetEvent>)
    requires net.nodes != [] && Fixed(net) && Initial(net)
    requires PossibleRun(net, history) && GenuineRun(net, history) && QuietRun(After(net, history), events)
    ensures |events| <= Measure(After(net, history))
    ensures var end := After(After(net, history), events);
            && (Resolved(end) || exists event :: Possible(end, event) && Quiet(event))
            && exists more :: QuietRun(end, more) && Resolved(After(end, more))
  {
    var start := After(net, history);
    HistoryLeadsToConvergence(net, history);
    QuietRunsEnd(start, events);
    RunKeepsDecodable(net, history);
    RunKeepsDecodable(start, events);
    ConvergingIsResolvedAtRest(After(start, events));
  }
}
