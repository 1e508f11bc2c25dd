/** The node as the object it is: handlers that change its fields and three maps in place. */
module Node {
  import opened DeviceIndex
  import DeviceLog
  import NodeLog
  import opened NodeModel
  import opened Wrappers

  /** Strictly ascending addresses: sorted, and every address listed once. */
  predicate Ascending(devices: seq<KnownDevice>) {
    forall i, j :: 0 <= i < j < |devices| ==> devices[i].address < devices[j].address
  }

  /** One insertion of the sort by address. */
  function Insert(devices: seq<KnownDevice>, device: KnownDevice): (sorted: seq<KnownDevice>)
    ensures forall d :: d in sorted <==> d in devices || d == device
    ensures Ascending(devices) && (forall d :: d in devices ==> d.address != device.address) ==> Ascending(sorted)
  {
    if devices == [] || device.address <= devices[0].address then
      [device] + devices
    else
      assert devices == [devices[0]] + devices[1..];
      var rest := Insert(devices[1..], device);
      assert Ascending(devices) ==> forall d :: d in rest ==> devices[0].address < d.address;
      [devices[0]] + rest
  }

  /** One pass over a table: every listed device is at an address of its own. */
  ghost predicate Listed(devices: seq<KnownDevice>, index: Index, names: set<Name>, addresses: set<Address>) {
    && Ascending(devices)
    && (forall d :: d in devices <==>
          || (exists n :: n in index.devices && n !in names && Clone(index.devices[n]) == d && d.address <= MAX_ADDRESS)
          || (exists a :: a in index.unknown && a !in addresses && Clone(index.unknown[a]) == d))
  }

  lemma ListingANamedDevice(devices: seq<KnownDevice>, index: Index, names: set<Name>, n: Name)
    requires Consistent(index) && names <= index.devices.Keys && n in names
    requires Listed(devices, index, names, index.unknown.Keys)
    ensures var device := Clone(index.devices[n]);
            Listed(if device.address <= MAX_ADDRESS then Insert(devices, device) else devices,
                   index, names - {n}, index.unknown.Keys)
  {
    var device := Clone(index.devices[n]);
    forall d | d in devices ensures d.address != device.address {
      var m :| m in index.devices && m !in names && Clone(index.devices[m]) == d && d.address <= MAX_ADDRESS;
    }
  }

  lemma ListingAnUnknownDevice(devices: seq<KnownDevice>, index: Index, addresses: set<Address>, a: Address)
    requires Consistent(index) && addresses <= index.unknown.Keys && a in addresses
    requires Listed(devices, index, {}, addresses)
    ensures Listed(Insert(devices, Clone(index.unknown[a])), index, {}, addresses - {a})
  {
    forall d | d in devices ensures d.address != a {
      if m :| m in index.devices && Clone(index.devices[m]) == d && d.address <= MAX_ADDRESS {
        assert d.address in index.holders;
      }
    }
  }

  lemma StepIsSafe(node: NodeState, event: Event)
    requires Settled(node) && Enabled(node, event)
    ensures Settled(Step(node, event).node)
    ensures var after := Step(node, event);
            forall i :: 0 <= i < |after.outputs| ==> after.outputs[i].source == after.node.address && !after.node.readOnly
  {
    StepKeepsSettled(node, event);
    var after := Step(node, event);
    forall i | 0 <= i < |after.outputs|
      ensures after.outputs[i].source == after.node.address && !after.node.readOnly
    {
      OutputsCarryTheAddress(node, event, i);
    }
  }

  class Node {
    var name: Name
    var arbitrary: bool
    var infoSet: bool
    var configReadable: bool
    var addressState: ClaimState
    var networkAddress: Address
    var preferredAddress: Address
    var addressClaimed: bool
    var readOnly: bool
    var started: bool
    var ticking: bool
    var knownDevices: map<Name, KnownDevice>
    var nameByAddress: map<Address, Name>
    var unknownByAddress: map<Address, KnownDevice>
    /** Everything handed to the publisher so far. */
    var published: seq<Output>

    ghost function IndexNow(): Index
      reads this
    {
      Index(knownDevices, nameByAddress, unknownByAddress)
    }

    ghost function State(): NodeState
      reads this
    {
      NodeState(name, arbitrary, infoSet, configReadable, addressState, networkAddress, preferredAddress,
                addressClaimed, readOnly, started, ticking, IndexNow())
    }

    constructor ()
      ensures State() == NewNode(0, false, false, false) && published == []
      ensures addressState == Unclaimed && networkAddress == 255 && preferredAddress == 128
      ensures readOnly && !addressClaimed && !started && !infoSet && IndexNow() == Index(map[], map[], map[])
    {
      name, arbitrary, infoSet, configReadable := 0, false, false, false;
      addressState, networkAddress, preferredAddress := Unclaimed, 255, 128;
      addressClaimed, readOnly, started, ticking := false, true, false, false;
      knownDevices, nameByAddress, unknownByAddress := map[], map[], map[];
      published := [];
    }

    method SetDeviceInfo(newName: Name, arbitraryAddressCapable: bool)
      modifies this`name, this`arbitrary, this`infoSet
      ensures State() == old(State()).(name := newName, arbitrary := arbitraryAddressCapable, infoSet := true)
    {
      name, arbitrary, infoSet := newName, arbitraryAddressCapable, true;
    }

    method RequestAddress(preferred: Address) returns (accepted: bool)
      modifies this
      ensures (State(), accepted) == AfterClaimAddress(old(State()), preferred)
      ensures published == old(published)
    {
      if preferred == NO_ADDRESS {
        preferredAddress := preferred;
        networkAddress := NO_ADDRESS;
        addressState := Unclaimed;
        addressClaimed := false;
        readOnly := true;
        return true;
      }
      if !infoSet {
        return false;
      }
      if preferred > MAX_ADDRESS {
        return false;
      }
      preferredAddress := preferred;
      readOnly := false;
      addressState := Claiming;
      return true;
    }

    method SendAddressClaim()
      modifies this`published
      ensures published == old(published) + SendClaim(State())
    {
      if !readOnly {
        published := published + [ClaimOut(networkAddress, name)];
      }
    }

    method UpdateKnownDeviceFromClaim(source: Address, claimant: Name)
      modifies this`knownDevices, this`nameByAddress, this`unknownByAddress
      ensures IndexNow() == AfterClaim(old(IndexNow()), source, claimant)
    {
      var knownName := claimant in knownDevices;
      var device := if knownName then knownDevices[claimant] else BlankDevice(0);
      var oldAddress := device.address;
      if source in unknownByAddress {
        device := Merge(device, unknownByAddress[source]);
        unknownByAddress := unknownByAddress - {source};
      }
      if source in nameByAddress && nameByAddress[source] != claimant {
        var previousName := nameByAddress[source];
        var previousDevice := if previousName in knownDevices then knownDevices[previousName] else BlankDevice(0);
        knownDevices := knownDevices[previousName := previousDevice.(address := NO_ADDRESS)];
      }
      if knownName && oldAddress <= MAX_ADDRESS && oldAddress != source {
        nameByAddress := nameByAddress - {oldAddress};
      }
      device := device.(address := source, name := claimant);
      knownDevices := knownDevices[claimant := device];
      nameByAddress := nameByAddress[source := claimant];
      assert source !in old(unknownByAddress) ==> old(unknownByAddress) - {source} == unknownByAddress;
    }

    method KnownDeviceForAddress(source: Address) returns (device: KnownDevice)
      ensures device == DeviceAt(IndexNow(), source)
    {
      if source in nameByAddress {
        var holder := nameByAddress[source];
        return if holder in knownDevices then knownDevices[holder] else BlankDevice(0);
      }
      if source in unknownByAddress {
        return unknownByAddress[source];
      }
      return BlankDevice(source);
    }

    method SetKnownDeviceForAddress(source: Address, device: KnownDevice)
      modifies this`knownDevices, this`nameByAddress, this`unknownByAddress
      ensures IndexNow() == Store(old(IndexNow()), source, device)
    {
      if device.name != 0 {
        knownDevices := knownDevices[device.name := device];
        nameByAddress := nameByAddress[source := device.name];
        unknownByAddress := unknownByAddress - {source};
        return;
      }
      unknownByAddress := unknownByAddress[source := device];
    }

    method UpdateKnownDeviceFromReport(source: Address, report: Report)
      modifies this`knownDevices, this`nameByAddress, this`unknownByAddress
      ensures IndexNow() == AfterReport(old(IndexNow()), source, report)
    {
      var device := KnownDeviceForAddress(source);
      device := device.(address := source);
      match report {
        case Product(product) => device := device.(product := Some(product));
        case Config(config) => device := device.(config := Some(config));
        case TransmitList(pgns) => device := device.(transmitPgns := Some(pgns));
        case ReceiveList(pgns) => device := device.(receivePgns := Some(pgns));
        case OtherList => return;
      }
      SetKnownDeviceForAddress(source, device);
    }

    method NextAvailableAddress(after: Address) returns (next: Option<Address>)
      ensures next == NextAvailable(IndexNow(), after)
      ensures next == None <==>
                forall a: Address :: a <= 253 ==> a in nameByAddress || a in unknownByAddress || a == after
      ensures next.Some? ==>
                && next.value <= 253 && next.value != after
                && next.value !in nameByAddress && next.value !in unknownByAddress
                && forall a: Address :: a <= 253 && (a - after - 1) % 254 < (next.value - after - 1) % 254 ==>
                     a in nameByAddress || a in unknownByAddress || a == after
    {
      NextAvailableIsFirst(IndexNow(), after);
      var i := 1;
      while i <= ADDRESS_COUNT
        invariant 1 <= i <= ADDRESS_COUNT + 1
        invariant NextAvailable(IndexNow(), after) == FirstFree(IndexNow(), after, i)
      {
        var candidate := (after + i) % ADDRESS_COUNT;
        if candidate !in nameByAddress && candidate !in unknownByAddress && candidate != after {
          return Some(candidate);
        }
        i := i + 1;
      }
      return None;
    }

    method YieldAddress()
      modifies this
      ensures State() == Yield(old(State())) && published == old(published)
    {
      addressClaimed := false;
      var next := None;
      if arbitrary {
        next := NextAvailableAddress(networkAddress);
      }
      if next.Some? {
        preferredAddress := next.value;
        addressState := Claiming;
      } else {
        addressState := Lost;
        networkAddress := NO_ADDRESS;
      }
    }

    method ProcessIsoAddressClaim(source: Address, incoming: Name)
      modifies this
      ensures State() == HandleClaim(old(State()), source, incoming).0
      ensures published == old(published) + HandleClaim(old(State()), source, incoming).1
    {
      UpdateKnownDeviceFromClaim(source, incoming);
      if addressState != Claiming && addressState != Claimed {
        return;
      }
      if source != networkAddress {
        return;
      }
      if incoming < name {
        YieldAddress();
      } else {
        SendAddressClaim();
      }
    }

    method ProcessIsoCommandedAddress(commanded: Name, newAddress: Option<Address>)
      modifies this
      ensures State() == HandleCommand(old(State()), commanded, newAddress)
      ensures published == old(published)
    {
      if readOnly {
        return;
      }
      if commanded != WithoutTopBit(name) {
        return;
      }
      if newAddress == None {
        return;
      }
      preferredAddress := newAddress.value;
      addressState := Claiming;
      addressClaimed := false;
    }

    method ProcessIsoRequest(source: Address, target: Address, pgn: Option<nat>)
      modifies this`published
      ensures published == old(published) + Responses(State(), source, target, pgn)
    {
      if pgn == None || readOnly || !addressClaimed {
        return;
      }
      if target != GLOBAL && target != networkAddress {
        return;
      }
      var responses: seq<Output> := [];
      if pgn.value == ISO_ADDRESS_CLAIM_PGN {
        responses := responses + [ClaimOut(networkAddress, name)];
      } else if pgn.value == PRODUCT_INFORMATION_PGN {
        responses := responses + [ReplyOut(networkAddress, source, PRODUCT_INFORMATION_PGN)];
      } else if pgn.value == PGN_LIST_PGN {
        responses := responses + [ReplyOut(networkAddress, source, PGN_LIST_PGN)];
        responses := responses + [ReplyOut(networkAddress, source, PGN_LIST_PGN)];
      } else if pgn.value == CONFIGURATION_INFORMATION_PGN {
        if configReadable {
          responses := responses + [ReplyOut(networkAddress, source, CONFIGURATION_INFORMATION_PGN)];
        } else {
          responses := responses + [ReplyOut(networkAddress, source, ISO_ACKNOWLEDGEMENT_PGN)];
        }
      }
      published := published + responses;
    }

    method ProcessPgn(message: Message)
      modifies this
      ensures State() == Handle(old(State()), message).0
      ensures published == old(published) + Handle(old(State()), message).1
    {
      match message
      case AddressClaim(source, incoming) => ProcessIsoAddressClaim(source, incoming);
      case CommandedAddress(commanded, newAddress) => ProcessIsoCommandedAddress(commanded, newAddress);
      case IsoRequest(source, target, pgn) => ProcessIsoRequest(source, target, pgn);
      case DeviceReport(source, report) => UpdateKnownDeviceFromReport(source, report);
      case Unrelated =>
    }

    /** The pass at the top of the processing loop. */
    method EvaluateClaim()
      modifies this
      ensures State() == Reevaluate(old(State())).0
      ensures published == old(published) + Reevaluate(old(State())).1
    {
      var shouldSendClaim := false;
      if addressState == Claiming {
        if ticking && networkAddress != preferredAddress {
          ticking := false;
        }
        if !ticking {
          ticking := true;
          networkAddress := preferredAddress;
          shouldSendClaim := true;
        }
      } else if ticking {
        ticking := false;
      }
      if shouldSendClaim {
        SendAddressClaim();
      }
    }

    method WriteTo(destination: Address) returns (accepted: bool)
      modifies this`published
      ensures accepted <==> MayWrite(State())
      ensures published ==
                old(published) + if MayWrite(State()) then [ApplicationOut(networkAddress, destination)] else []
    {
      if readOnly {
        return false;
      }
      if !addressClaimed {
        return false;
      }
      published := published + [ApplicationOut(networkAddress, destination)];
      return true;
    }

    method StartNode() returns (accepted: bool)
      modifies this`started, this`ticking
      ensures (State(), accepted) == (Effect(old(State()), Start).node, Effect(old(State()), Start).accepted)
    {
      if started {
        return false;
      }
      started, ticking := true, false;
      return true;
    }

    method StopNode() returns (accepted: bool)
      modifies this
      ensures (State(), accepted) == (Effect(old(State()), Stop).node, Effect(old(State()), Stop).accepted)
      ensures published == old(published)
    {
      if !started {
        return false;
      }
      started, ticking := false, false;
      addressState := Unclaimed;
      addressClaimed := false;
      networkAddress := NO_ADDRESS;
      readOnly := true;
      return true;
    }

    method FinishClaim()
      modifies this`addressState, this`addressClaimed
      ensures State() == AfterTick(old(State()))
    {
      if addressState == Claiming {
        addressState := Claimed;
        addressClaimed := true;
      }
    }

    method Dispatch(event: Event) returns (accepted: bool)
      modifies this
      ensures var effect := Effect(old(State()), event);
              && State() == effect.node && accepted == effect.accepted
              && published == old(published) + effect.outputs
    {
      accepted := true;
      match event
      case ClaimAddress(preferred) => accepted := RequestAddress(preferred);
      case Start => accepted := StartNode();
      case Stop => accepted := StopNode();
      case Receive(message) => ProcessPgn(message);
      case ClaimTick => FinishClaim();
      case Write(destination) => accepted := WriteTo(destination);
    }

    /** One turn of the loop: the event, then the pass it wakes. */
    method Turn(event: Event) returns (accepted: bool)
      requires Enabled(State(), event)
      modifies this
      ensures var outcome := Step(old(State()), event);
              && State() == outcome.node && accepted == outcome.accepted
              && published == old(published) + outcome.outputs
    {
      accepted := Dispatch(event);
      if accepted && started && !event.Write? {
        EvaluateClaim();
      }
    }

    /** One step of the machine; it keeps the node invariant, and whatever it publishes carries the current address. */
    method HandleEvent(event: Event) returns (accepted: bool)
      requires Enabled(State(), event)
      modifies this
      ensures var outcome := Step(old(State()), event);
              && State() == outcome.node && accepted == outcome.accepted
              && published == old(published) + outcome.outputs
      ensures old(Settled(State())) ==> Settled(State())
      ensures old(Settled(State())) ==>
                forall i :: |old(published)| <= i < |published| ==> published[i].source == networkAddress && !readOnly
    {
      ghost var before := State();
      accepted := Turn(event);
      if Settled(before) {
        StepIsSafe(before, event);
      }
    }

    /** The devices observed on a real address, sorted by address. */
    method KnownDevices() returns (devices: seq<KnownDevice>)
      requires Consistent(IndexNow())
      ensures forall d :: d in devices <==>
                || (exists n :: n in knownDevices && Clone(knownDevices[n]) == d && d.address <= MAX_ADDRESS)
                || (exists a :: a in unknownByAddress && Clone(unknownByAddress[a]) == d)
      ensures Ascending(devices)
    {
      devices := [];
      var names := knownDevices.Keys;
      while names != {}
        invariant names <= knownDevices.Keys
        invariant Listed(devices, IndexNow(), names, unknownByAddress.Keys)
      {
        var n :| n in names;
        ListingANamedDevice(devices, IndexNow(), names, n);
        names := names - {n};
        if knownDevices[n].address <= MAX_ADDRESS {
          devices := Insert(devices, Clone(knownDevices[n]));
        }
      }
      var addresses := unknownByAddress.Keys;
      while addresses != {}
        invariant addresses <= unknownByAddress.Keys
        invariant Listed(devices, IndexNow(), {}, addresses)
      {
        var a :| a in addresses;
        ListingAnUnknownDevice(devices, IndexNow(), addresses, a);
        addresses := addresses - {a};
        devices := Insert(devices, Clone(unknownByAddress[a]));
      }
    }
  }

  /**
    A new node, configured and then driven through any run of events, ends settled
    where the machine ends, and knows of other devices what the log of heard
    claims and reports says.
   */
  method Drive(name: Name, arbitrary: bool, events: seq<Event>) returns (node: Node)
    requires ValidRun(NewNode(name, arbitrary, true, false), events)
    ensures fresh(node) && Settled(node.State())
    ensures node.State() == Run(NewNode(name, arbitrary, true, false), events)
    ensures node.IndexNow() == DeviceLog.Replay(NodeLog.Heard(events))
  {
    node := new Node();
    node.SetDeviceInfo(name, arbitrary);
    ghost var start := NewNode(name, arbitrary, true, false);
    NodeLog.IndexOfARun(name, arbitrary, true, false, events);
    for i := 0 to |events|
      invariant fresh(node) && Settled(node.State())
      invariant ValidRun(node.State(), events[i..]) && Run(start, events) == Run(node.State(), events[i..])
    {
      assert events[i..][1..] == events[i + 1..];
      var _ := node.HandleEvent(events[i]);
    }
  }

  /**
    What a node lists after any run of events: one device for every address on
    which the log of claims and reports has somebody, sorted, with the name,
    the address and the facts the log has for it, and no other.
   */
  method Observe(name: Name, arbitrary: bool, events: seq<Event>) returns (devices: seq<KnownDevice>)
    requires ValidRun(NewNode(name, arbitrary, true, false), events) && DeviceLog.WellSourced(NodeLog.Heard(events))
    ensures Ascending(devices)
    ensures forall d :: d in devices ==> NodeLog.ToBeSeen(NodeLog.Heard(events), d)
    ensures forall a: Address :: a <= 253 ==>
              (NodeLog.Occupied(NodeLog.Heard(events), a) <==> exists d :: d in devices && d.address == a)
  {
    var node := Drive(name, arbitrary, events);
    ghost var log := NodeLog.Heard(events);
    DeviceLog.IndexIsFoldOfLog(log);
    devices := node.KnownDevices();
    forall d | d in devices
      ensures NodeLog.ToBeSeen(log, d) && NodeLog.Occupied(log, d.address)
    {
      ListedIsToBeSeen(node.IndexNow(), log, d);
    }
    forall a: Address | a <= 253 && NodeLog.Occupied(log, a) ensures exists d :: d in devices && d.address == a {
      NodeLog.OccupiedIsRecorded(log, a);
      if a in node.unknownByAddress {
        assert Clone(node.unknownByAddress[a]) in devices;
      } else {
        assert Clone(node.knownDevices[node.nameByAddress[a]]) in devices;
      }
    }
  }

  lemma ListedIsToBeSeen(index: Index, log: seq<DeviceLog.Entry>, d: KnownDevice)
    requires DeviceLog.WellSourced(log) && index == DeviceLog.Replay(log)
    requires || (exists n :: n in index.devices && Clone(index.devices[n]) == d && d.address <= MAX_ADDRESS)
             || (exists a :: a in index.unknown && Clone(index.unknown[a]) == d)
    ensures NodeLog.ToBeSeen(log, d) && NodeLog.Occupied(log, d.address)
  {
    if n :| n in index.devices && Clone(index.devices[n]) == d && d.address <= MAX_ADDRESS {
      NodeLog.NamedIsToBeSeen(log, n);
    } else {
      var a :| a in index.unknown && Clone(index.unknown[a]) == d;
      NodeLog.UnknownIsToBeSeen(log, a);
    }
  }
}
