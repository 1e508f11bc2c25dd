/**
  Any number of nodes on one bus. Every node has a FIFO inbox; a published
  address claim is appended to the inbox of every other started node. Traffic
  of foreign devices may put any message into any inbox at any time.
 */
module ClaimNetwork {
  import opened DeviceIndex
  import opened NodeModel

  datatype Net = Net(nodes: seq<NodeState>, inboxes: seq<seq<Message>>)

  /** One step of the network: an API call, a delivery, a claim tick, or foreign traffic. */
  datatype NetEvent =
    | Api(k: nat, call: Event)
    | Deliver(k: nat)
    | Tick(k: nat)
    | Foreign(k: nat, message: Message)

  function ClaimBy(node: NodeState): Message {
    AddressClaim(node.address, node.name)
  }

  /** The address claims among the published PGNs. */
  function Claims(outputs: seq<Output>): (claims: seq<Message>)
    ensures forall source, name :: AddressClaim(source, name) in claims <==> ClaimOut(source, name) in outputs
    ensures forall m :: m in claims ==> m.AddressClaim?
    ensures |claims| <= |outputs|
  {
    if outputs == [] then []
    else
      var rest := Claims(outputs[1..]);
      assert outputs == [outputs[0]] + outputs[1..];
      if outputs[0].ClaimOut? then [AddressClaim(outputs[0].source, outputs[0].name)] + rest else rest
  }

  predicate WellShaped(net: Net) {
    |net.nodes| == |net.inboxes|
  }

  function Broadcast(net: Net, k: nat, claims: seq<Message>): (inboxes: seq<seq<Message>>)
    requires WellShaped(net)
    ensures |inboxes| == |net.inboxes|
  {
    seq(|net.inboxes|, j requires 0 <= j < |net.inboxes| =>
      if j != k && net.nodes[j].started then net.inboxes[j] + claims else net.inboxes[j])
  }

  /** Node k takes a step and what it claims reaches every other started node. */
  function Local(net: Net, k: nat, event: Event): (after: Net)
    requires WellShaped(net) && k < |net.nodes| && Enabled(net.nodes[k], event)
    ensures WellShaped(after) && |after.nodes| == |net.nodes|
  {
    var outcome := Step(net.nodes[k], event);
    Net(net.nodes[k := outcome.node], Broadcast(net, k, Claims(outcome.outputs)))
  }

  function DropHead(net: Net, k: nat): Net
    requires WellShaped(net) && k < |net.nodes| && net.inboxes[k] != []
  {
    net.(inboxes := net.inboxes[k := net.inboxes[k][1..]])
  }

  predicate Possible(net: Net, event: NetEvent)
    requires WellShaped(net)
  {
    event.k < |net.nodes| &&
    match event
    case Api(k, call) => (call.ClaimAddress? || call.Start? || call.Stop? || call.Write?)
    case Deliver(k) => net.inboxes[k] != [] && Enabled(net.nodes[k], Receive(net.inboxes[k][0]))
    case Tick(k) => Enabled(net.nodes[k], ClaimTick)
    case Foreign(k, message) => Decodable(message)
  }

  function NetStep(net: Net, event: NetEvent): (after: Net)
    requires WellShaped(net) && Possible(net, event)
    ensures WellShaped(after) && |after.nodes| == |net.nodes|
  {
    match event
    case Api(k, call) => Local(net, k, call)
    case Deliver(k) => Local(DropHead(net, k), k, Receive(net.inboxes[k][0]))
    case Tick(k) => Local(net, k, ClaimTick)
    case Foreign(k, message) => net.(inboxes := net.inboxes[k := net.inboxes[k] + [message]])
  }

  predicate Distinct(nodes: seq<NodeState>) {
    forall i, j :: 0 <= i < j < |nodes| && nodes[i].infoSet && nodes[j].infoSet ==> nodes[i].name != nodes[j].name
  }

  /** Two nodes are on the same real address. */
  predicate Conflict(net: Net, i: nat, j: nat)
    requires i < |net.nodes| && j < |net.nodes|
  {
    i != j && Active(net.nodes[i]) && Active(net.nodes[j]) && net.nodes[i].address == net.nodes[j].address
  }

  /** A claim that will make one of two nodes act on their conflict is still undelivered. */
  predicate Resolving(net: Net, i: nat, j: nat)
    requires WellShaped(net) && i < |net.nodes| && j < |net.nodes|
  {
    ClaimBy(net.nodes[i]) in net.inboxes[j] || ClaimBy(net.nodes[j]) in net.inboxes[i]
  }

  ghost predicate Safe(net: Net) {
    && WellShaped(net)
    && Distinct(net.nodes)
    && (forall k :: 0 <= k < |net.nodes| ==> Settled(net.nodes[k]))
    && (forall i, j :: 0 <= i < |net.nodes| && 0 <= j < |net.nodes| && Conflict(net, i, j) ==> Resolving(net, i, j))
  }

  /** Every other started node hears the claims of a step, after what it had yet to hear; nobody else hears anything. */
  lemma WhoHears(net: Net, k: nat, event: Event, j: nat)
    requires WellShaped(net) && k < |net.nodes| && j < |net.nodes| && Enabled(net.nodes[k], event)
    ensures var before, heard := net.inboxes[j], Local(net, k, event).inboxes[j];
            if j == k || !net.nodes[j].started then heard == before
            else
              && before <= heard
              && (forall source, name ::
                    AddressClaim(source, name) in heard[|before|..] <==>
                      ClaimOut(source, name) in Step(net.nodes[k], event).outputs)
              && forall m :: m in heard[|before|..] ==> m.AddressClaim?
  {
    var claims := Claims(Step(net.nodes[k], event).outputs);
    assert (net.inboxes[j] + claims)[|net.inboxes[j]|..] == claims;
  }

  /** A node stayed on its address, or announced the one it is on now to everybody else. */
  lemma StayedOrAnnounced(net: Net, k: nat, event: Event, j: nat)
    requires WellShaped(net) && k < |net.nodes| && j < |net.nodes| && j != k
    requires Settled(net.nodes[k]) && Enabled(net.nodes[k], event) && net.nodes[j].started
    requires Active(Step(net.nodes[k], event).node)
    ensures var after := Local(net, k, event);
            || ClaimBy(after.nodes[k]) in after.inboxes[j]
            || (&& Active(net.nodes[k]) && ClaimBy(after.nodes[k]) == ClaimBy(net.nodes[k])
                && !(event.Receive? && event.message.AddressClaim? && event.message.source == net.nodes[k].address))
  {
    StepKeepsSettled(net.nodes[k], event);
    ActiveOnlyByClaiming(net.nodes[k], event);
  }

  /** A local step of node k resolves or inherits the resolution of its conflicts. */
  lemma LocalKeepsResolving(net: Net, before: Net, k: nat, event: Event, j: nat)
    requires Safe(before) && WellShaped(net) && before.nodes == net.nodes
    requires k < |net.nodes| && j < |net.nodes| && Enabled(net.nodes[k], event)
    requires forall i :: 0 <= i < |net.nodes| && i != k ==> net.inboxes[i] == before.inboxes[i]
    requires forall m :: m in before.inboxes[k] ==> m in net.inboxes[k] || event == Receive(m)
    requires Conflict(Local(net, k, event), k, j)
    ensures Resolving(Local(net, k, event), k, j)
  {
    StayedOrAnnounced(net, k, event, j);
    var after := Local(net, k, event);
    if ClaimBy(after.nodes[k]) !in after.inboxes[j] {
      assert Conflict(before, k, j);
      assert Resolving(before, k, j);
    }
  }

  lemma LocalKeepsSafe(net: Net, before: Net, k: nat, event: Event)
    requires Safe(before) && WellShaped(net) && before.nodes == net.nodes
    requires k < |net.nodes| && Enabled(net.nodes[k], event)
    requires forall i :: 0 <= i < |net.nodes| && i != k ==> net.inboxes[i] == before.inboxes[i]
    requires forall m :: m in before.inboxes[k] ==> m in net.inboxes[k] || event == Receive(m)
    ensures Safe(Local(net, k, event))
  {
    var after := Local(net, k, event);
    StepKeepsSettled(net.nodes[k], event);
    forall i, j | 0 <= i < |net.nodes| && 0 <= j < |net.nodes| && Conflict(after, i, j)
      ensures Resolving(after, i, j)
    {
      if i == k {
        LocalKeepsResolving(net, before, k, event, j);
      } else if j == k {
        LocalKeepsResolving(net, before, k, event, i);
      } else {
        assert Conflict(before, i, j);
        assert Resolving(before, i, j);
      }
    }
  }

  lemma StepKeepsSafe(net: Net, event: NetEvent)
    requires Safe(net) && Possible(net, event)
    ensures Safe(NetStep(net, event))
  {
    match event
    case Api(k, call) => LocalKeepsSafe(net, net, k, call);
    case Deliver(k) =>
      assert net.inboxes[k] == [net.inboxes[k][0]] + net.inboxes[k][1..];
      LocalKeepsSafe(DropHead(net, k), net, k, Receive(net.inboxes[k][0]));
    case Tick(k) => LocalKeepsSafe(net, net, k, ClaimTick);
    case Foreign(k, message) =>
      var after := NetStep(net, event);
      forall i, j | 0 <= i < |net.nodes| && 0 <= j < |net.nodes| && Conflict(after, i, j)
        ensures Resolving(after, i, j)
      {
        assert Conflict(net, i, j);
        assert Resolving(net, i, j);
      }
  }

  predicate PossibleRun(net: Net, events: seq<NetEvent>)
    requires WellShaped(net)
    decreases |events|
  {
    events == [] || (Possible(net, events[0]) && PossibleRun(NetStep(net, events[0]), events[1..]))
  }

  function After(net: Net, events: seq<NetEvent>): (after: Net)
    requires WellShaped(net) && PossibleRun(net, events)
    ensures WellShaped(after) && |after.nodes| == |net.nodes|
    decreases |events|
  {
    if events == [] then net else After(NetStep(net, events[0]), events[1..])
  }

  /** New nodes with pairwise distinct NAMEs and nothing on the bus. */
  ghost predicate Initial(net: Net) {
    && WellShaped(net) && Distinct(net.nodes)
    && (forall k :: 0 <= k < |net.nodes| ==>
          net.nodes[k] == NewNode(net.nodes[k].name, net.nodes[k].arbitrary, net.nodes[k].infoSet, net.nodes[k].configReadable))
    && (forall k :: 0 <= k < |net.nodes| ==> net.inboxes[k] == [])
  }

  /**
    In every run of every network, whatever foreign traffic it hears, each
    address conflict has an undelivered claim that will resolve it.
   */
  lemma {:induction false} ConflictsAreBeingResolved(net: Net, events: seq<NetEvent>)
    requires (Initial(net) || Safe(net)) && PossibleRun(net, events)
    ensures Safe(After(net, events))
    decreases |events|
  {
    if events != [] {
      StepKeepsSafe(net, events[0]);
      ConflictsAreBeingResolved(NetStep(net, events[0]), events[1..]);
    }
  }

  predicate UniqueAddresses(net: Net) {
    forall i, j :: 0 <= i < |net.nodes| && 0 <= j < |net.nodes| ==> !Conflict(net, i, j)
  }

  /** Whenever the started nodes have heard everything sent so far, no two of them share an address. */
  lemma DrainedMeansUnique(net: Net, events: seq<NetEvent>)
    requires Initial(net) && PossibleRun(net, events)
    requires forall k :: 0 <= k < |net.nodes| && After(net, events).nodes[k].started ==> After(net, events).inboxes[k] == []
    ensures UniqueAddresses(After(net, events))
  {
    ConflictsAreBeingResolved(net, events);
  }
}
