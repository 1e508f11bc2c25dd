/**
  One node of the address-claim protocol as a state machine. A step is one
  event (an API call, a received PGN, a claim tick) followed by the pass the
  processing loop makes over the claim state.
 */
module NodeModel {
  import opened DeviceIndex
  import opened Wrappers

  const GLOBAL: Address := 255

  const ISO_ACKNOWLEDGEMENT_PGN: nat := 59392
  const ISO_ADDRESS_CLAIM_PGN: nat := 60928
  const PGN_LIST_PGN: nat := 126464
  const PRODUCT_INFORMATION_PGN: nat := 126996
  const CONFIGURATION_INFORMATION_PGN: nat := 126998

  datatype ClaimState = Unclaimed | Claiming | Claimed | Lost

  /** A received PGN. A commanded NAME arrives without its arbitrary-address bit. */
  datatype Message =
    | AddressClaim(source: Address, name: Name)
    | CommandedAddress(name: Name, newAddress: Option<Address>)
    | IsoRequest(source: Address, target: Address, pgn: Option<nat>)
    | DeviceReport(source: Address, report: Report)
    | Unrelated

  /** A PGN handed to the publisher. */
  datatype Output =
    | ClaimOut(source: Address, name: Name)
    | ReplyOut(source: Address, destination: Address, pgn: nat)
    | ApplicationOut(source: Address, destination: Address)

  datatype NodeState = NodeState(
    name: Name, arbitrary: bool, infoSet: bool, configReadable: bool,
    state: ClaimState, address: Address, preferred: Address, claimed: bool, readOnly: bool,
    started: bool, ticking: bool, index: Index)

  datatype Event =
    | ClaimAddress(preferred: Address)
    | Start
    | Stop
    | Receive(message: Message)
    | ClaimTick
    | Write(destination: Address)

  /** The node after a step, what it published, and whether an API call was accepted. */
  datatype Outcome = Outcome(node: NodeState, outputs: seq<Output>, accepted: bool)

  function NewNode(name: Name, arbitrary: bool, infoSet: bool, configReadable: bool): NodeState {
    NodeState(name, arbitrary, infoSet, configReadable, Unclaimed, NO_ADDRESS, 128, false, true, false, false, EMPTY_INDEX)
  }

  /** An address the search for a free one must skip. */
  predicate IsTaken(index: Index, after: Address, candidate: Address) {
    candidate in index.holders || candidate in index.unknown || candidate == after
  }

  /** The i-th candidate of the search, in cyclic order over 0..253. */
  function Candidate(after: Address, i: nat): (candidate: Address)
    ensures candidate <= MAX_ADDRESS
  {
    (after + i) % ADDRESS_COUNT
  }

  function FirstFree(index: Index, after: Address, i: nat): Option<Address>
    decreases ADDRESS_COUNT + 1 - i
  {
    if i > ADDRESS_COUNT then None
    else if !IsTaken(index, after, Candidate(after, i)) then Some(Candidate(after, i))
    else FirstFree(index, after, i + 1)
  }

  /** nextAvailableAddressLocked. */
  function NextAvailable(index: Index, after: Address): Option<Address> {
    FirstFree(index, after, 1)
  }

  predicate Contending(node: NodeState) {
    node.state == Claiming || node.state == Claimed
  }

  /** The node puts claims or traffic on the bus under a real address. */
  predicate Active(node: NodeState) {
    node.started && Contending(node) && node.address <= MAX_ADDRESS
  }

  /** The top of the processing loop: start, restart or stop the claim ticker. */
  function Reevaluate(node: NodeState): (NodeState, seq<Output>) {
    if node.state == Claiming then
      if node.ticking && node.address == node.preferred then (node, [])
      else
        var claiming := node.(address := node.preferred, ticking := true);
        (claiming, SendClaim(claiming))
    else (node.(ticking := false), [])
  }

  function SendClaim(node: NodeState): seq<Output> {
    if node.readOnly then [] else [ClaimOut(node.address, node.name)]
  }

  /** Give up the address: try the next free one, or fall silent. */
  function Yield(node: NodeState): NodeState {
    var next := if node.arbitrary then NextAvailable(node.index, node.address) else None;
    if next.Some? then node.(claimed := false, preferred := next.value, state := Claiming)
    else node.(claimed := false, state := Lost, address := NO_ADDRESS)
  }

  function HandleClaim(node: NodeState, source: Address, name: Name): (NodeState, seq<Output>) {
    var seen := node.(index := AfterClaim(node.index, source, name));
    if !Contending(seen) || source != seen.address then (seen, [])
    else if name < seen.name then (Yield(seen), [])
    else (seen, SendClaim(seen))
  }

  /** Clears the arbitrary-address-capable bit, which a command cannot carry. */
  function WithoutTopBit(name: Name): Name {
    name % 0x8000_0000_0000_0000
  }

  function HandleCommand(node: NodeState, name: Name, newAddress: Option<Address>): NodeState {
    if node.readOnly || name != WithoutTopBit(node.name) || newAddress == None then node
    else node.(preferred := newAddress.value, state := Claiming, claimed := false)
  }

  function Responses(node: NodeState, source: Address, target: Address, pgn: Option<nat>): seq<Output> {
    if pgn == None || node.readOnly || !node.claimed || (target != GLOBAL && target != node.address) then []
    else if pgn.value == ISO_ADDRESS_CLAIM_PGN then [ClaimOut(node.address, node.name)]
    else if pgn.value == PRODUCT_INFORMATION_PGN then [ReplyOut(node.address, source, PRODUCT_INFORMATION_PGN)]
    else if pgn.value == PGN_LIST_PGN then
      [ReplyOut(node.address, source, PGN_LIST_PGN), ReplyOut(node.address, source, PGN_LIST_PGN)]
    else if pgn.value == CONFIGURATION_INFORMATION_PGN then
      [ReplyOut(node.address, source,
                if node.configReadable then CONFIGURATION_INFORMATION_PGN else ISO_ACKNOWLEDGEMENT_PGN)]
    else []
  }

  function Handle(node: NodeState, message: Message): (NodeState, seq<Output>) {
    match message
    case AddressClaim(source, name) => HandleClaim(node, source, name)
    case CommandedAddress(name, newAddress) => (HandleCommand(node, name, newAddress), [])
    case IsoRequest(source, target, pgn) => (node, Responses(node, source, target, pgn))
    case DeviceReport(source, report) => (node.(index := AfterReport(node.index, source, report)), [])
    case Unrelated => (node, [])
  }

  function AfterClaimAddress(node: NodeState, preferred: Address): (NodeState, bool) {
    if preferred == NO_ADDRESS then
      (node.(preferred := preferred, address := NO_ADDRESS, state := Unclaimed, claimed := false, readOnly := true), true)
    else if !node.infoSet || preferred > MAX_ADDRESS then (node, false)
    else (node.(preferred := preferred, readOnly := false, state := Claiming), true)
  }

  function AfterTick(node: NodeState): NodeState {
    if node.state == Claiming then node.(state := Claimed, claimed := true) else node
  }

  function AfterStop(node: NodeState): NodeState {
    node.(started := false, ticking := false, state := Unclaimed, claimed := false, address := NO_ADDRESS, readOnly := true)
  }

  predicate MayWrite(node: NodeState) {
    !node.readOnly && node.claimed
  }

  /** The decoder yields no reserved value as commanded address, so it is at most 253. */
  predicate Decodable(message: Message) {
    message.CommandedAddress? && message.newAddress.Some? ==> message.newAddress.value <= MAX_ADDRESS
  }

  /** A stopped node receives nothing; a claim tick needs a running ticker. */
  predicate Enabled(node: NodeState, event: Event) {
    match event
    case Receive(message) => node.started && Decodable(message)
    case ClaimTick => node.started && node.ticking
    case _ => true
  }

  /** What the event itself does, before the loop looks at the claim state. */
  function Effect(node: NodeState, event: Event): Outcome {
    match event
    case ClaimAddress(preferred) =>
      var (next, accepted) := AfterClaimAddress(node, preferred);
      Outcome(next, [], accepted)
    case Start =>
      if node.started then Outcome(node, [], false) else Outcome(node.(started := true, ticking := false), [], true)
    case Stop =>
      if node.started then Outcome(AfterStop(node), [], true) else Outcome(node, [], false)
    case Receive(message) =>
      var (next, outputs) := Handle(node, message);
      Outcome(next, outputs, true)
    case ClaimTick => Outcome(AfterTick(node), [], true)
    case Write(destination) =>
      if MayWrite(node) then Outcome(node, [ApplicationOut(node.address, destination)], true)
      else Outcome(node, [], false)
  }

  /** The event wakes the loop of a started node, unless it was refused or only wrote to the bus. */
  predicate Wakes(effect: Outcome, event: Event) {
    effect.accepted && effect.node.started && !event.Write?
  }

  function Step(node: NodeState, event: Event): Outcome
    requires Enabled(node, event)
  {
    var effect := Effect(node, event);
    if Wakes(effect, event) then
      var (next, claims) := Reevaluate(effect.node);
      Outcome(next, effect.outputs + claims, true)
    else effect
  }

  /** What holds of a node between two steps. */
  ghost predicate Settled(node: NodeState) {
    && (node.readOnly <==> node.state == Unclaimed)
    && (node.readOnly ==> node.address == NO_ADDRESS)
    && (node.state == Lost ==> node.address == NO_ADDRESS && node.started)
    && (node.claimed ==> Contending(node) && node.address <= MAX_ADDRESS && node.started)
    && (node.state == Claimed ==> node.claimed)
    && (node.state == Claiming ==> node.preferred <= MAX_ADDRESS)
    && (node.started && node.state == Claiming ==> node.address == node.preferred)
    && (node.ticking <==> node.started && node.state == Claiming)
    && (!node.started ==> node.address == NO_ADDRESS && (node.state == Unclaimed || node.state == Claiming))
    && (!node.readOnly ==> node.infoSet)
  }

  /** How many steps of the cyclic order over 0..253 lie between an address and one after it, less one. */
  function Distance(after: Address, a: Address): (steps: nat)
    ensures steps < 254
  {
    (a - after - 1) % 254
  }

  /** An address is the candidate of the turn its distance says. */
  lemma CandidateAtDistance(after: Address, a: Address)
    requires a <= 253
    ensures Candidate(after, Distance(after, a) + 1) == a
  {
  }

  lemma DistanceOfCandidate(after: Address, i: nat)
    requires 1 <= i <= 254
    ensures Distance(after, Candidate(after, i)) == i - 1
  {
  }

  lemma {:induction false} FirstFreeIsFirst(index: Index, after: Address, i: nat)
    requires 1 <= i <= ADDRESS_COUNT + 1
    requires forall a: Address :: a <= 253 && Distance(after, a) < i - 1 ==> IsTaken(index, after, a)
    ensures var free := FirstFree(index, after, i);
            if free.Some?
            then
              && free.value <= 253 && !IsTaken(index, after, free.value)
              && forall a: Address :: a <= 253 && Distance(after, a) < Distance(after, free.value) ==> IsTaken(index, after, a)
            else forall a: Address :: a <= 253 ==> IsTaken(index, after, a)
    decreases ADDRESS_COUNT + 1 - i
  {
    if i <= ADDRESS_COUNT {
      DistanceOfCandidate(after, i);
      if IsTaken(index, after, Candidate(after, i)) {
        forall a: Address | a <= 253 && Distance(after, a) < i ensures IsTaken(index, after, a) {
          CandidateAtDistance(after, a);
        }
        FirstFreeIsFirst(index, after, i + 1);
      }
    }
  }

  /**
    The search returns the nearest address after the lost one, in cyclic order
    over 0..253, that no device is known on; it fails exactly when every address
    but the lost one is a device's.
   */
  lemma NextAvailableIsFirst(index: Index, after: Address)
    ensures var next := NextAvailable(index, after);
            && (next == None <==>
                  forall a: Address :: a <= 253 ==> a in index.holders || a in index.unknown || a == after)
            && (next.Some? ==>
                  && next.value <= 253 && next.value != after
                  && next.value !in index.holders && next.value !in index.unknown
                  && forall a: Address :: a <= 253 && (a - after - 1) % 254 < (next.value - after - 1) % 254 ==>
                       a in index.holders || a in index.unknown || a == after)
  {
    FirstFreeIsFirst(index, after, 1);
    var next := NextAvailable(index, after);
    if next.Some? {
      forall a: Address | a <= 253 && (a - after - 1) % 254 < (next.value - after - 1) % 254
        ensures a in index.holders || a in index.unknown || a == after
      {
        assert Distance(after, a) < Distance(after, next.value);
        assert IsTaken(index, after, a);
      }
    } else {
      forall a: Address | a <= 253 ensures a in index.holders || a in index.unknown || a == after {
        assert IsTaken(index, after, a);
      }
    }
  }

  lemma SettledStays(node: NodeState)
    requires Settled(node) && node.started
    ensures Reevaluate(node) == (node, [])
  {
  }

  /** Where a node that lost its address ends up, and what it says. */
  lemma YieldingSettles(node: NodeState)
    requires Settled(node) && Active(node)
    ensures var next := if node.arbitrary then NextAvailable(node.index, node.address) else None;
            && Settled(Reevaluate(Yield(node)).0)
            && (next == None ==>
                  Reevaluate(Yield(node)) == (node.(state := Lost, address := NO_ADDRESS, claimed := false, ticking := false), []))
            && (next.Some? ==>
                  && next.value != node.address && next.value <= MAX_ADDRESS
                  && Reevaluate(Yield(node)) ==
                       (node.(state := Claiming, address := next.value, preferred := next.value,
                              claimed := false, ticking := true),
                        [ClaimOut(next.value, node.name)]))
  {
    NextAvailableIsFirst(node.index, node.address);
  }

  /**
    What hearing an address claim does: a claim for another address only updates
    the index; a claim for our own is answered when our NAME has priority; else
    we move to the next free address and claim it, or go silent.
   */
  lemma HearingAClaim(node: NodeState, source: Address, name: Name)
    requires Settled(node) && node.started
    ensures var after := Step(node, Receive(AddressClaim(source, name)));
            var heard := node.(index := AfterClaim(node.index, source, name));
            var next := if node.arbitrary then NextAvailable(heard.index, node.address) else None;
            && Settled(after.node) && SameIdentity(after.node, node)
            && (!Active(node) || source != node.address ==> after.node == heard && after.outputs == [])
            && (Active(node) && source == node.address && node.name <= name ==>
                  after.node == heard && after.outputs == [ClaimOut(node.address, node.name)])
            && (Active(node) && source == node.address && name < node.name && next == None ==>
                  after.node == heard.(state := Lost, address := NO_ADDRESS, claimed := false, ticking := false)
                  && after.outputs == [])
            && (Active(node) && source == node.address && name < node.name && next.Some? ==>
                  after.node == heard.(state := Claiming, address := next.value, preferred := next.value,
                                       claimed := false, ticking := true)
                  && next.value != node.address && next.value <= MAX_ADDRESS
                  && after.outputs == [ClaimOut(next.value, node.name)])
  {
    var heard := node.(index := AfterClaim(node.index, source, name));
    var (handled, claims) := HandleClaim(node, source, name);
    assert Effect(node, Receive(AddressClaim(source, name))) == Outcome(handled, claims, true);
    SettledStays(heard);
    if Active(node) {
      YieldingSettles(heard);
    }
  }

  predicate SameIdentity(a: NodeState, b: NodeState) {
    a.name == b.name && a.infoSet == b.infoSet && a.arbitrary == b.arbitrary && a.configReadable == b.configReadable
  }

  lemma MessageKeepsSettled(node: NodeState, message: Message)
    requires Settled(node) && Enabled(node, Receive(message)) && !message.AddressClaim?
    ensures Settled(Step(node, Receive(message)).node)
    ensures SameIdentity(Step(node, Receive(message)).node, node)
  {
    var next := Handle(node, message).0;
    assert Step(node, Receive(message)).node == Reevaluate(next).0;
    if message.CommandedAddress? {
    } else {
      assert next == node.(index := next.index);
    }
  }

  lemma CallKeepsSettled(node: NodeState, event: Event)
    requires Settled(node) && Enabled(node, event) && !event.Receive?
    ensures Settled(Step(node, event).node)
    ensures SameIdentity(Step(node, event).node, node)
  {
    var effect := Effect(node, event);
    assert SameIdentity(effect.node, node) && effect.node.index == node.index;
  }

  /** Every step keeps the node invariant and the node's identity. */
  lemma StepKeepsSettled(node: NodeState, event: Event)
    requires Settled(node) && Enabled(node, event)
    ensures Settled(Step(node, event).node)
    ensures SameIdentity(Step(node, event).node, node)
  {
    if !event.Receive? {
      CallKeepsSettled(node, event);
    } else if event.message.AddressClaim? {
      HearingAClaim(node, event.message.source, event.message.name);
    } else {
      MessageKeepsSettled(node, event.message);
    }
  }

  /**
    A node is on an address after a step only if it just claimed it on the bus,
    or it was there before and did not just hear another claim for it.
   */
  lemma ActiveOnlyByClaiming(node: NodeState, event: Event)
    requires Settled(node) && Enabled(node, event)
    ensures var after := Step(node, event);
            Active(after.node) && ClaimOut(after.node.address, node.name) !in after.outputs ==>
              && Active(node) && node.address == after.node.address
              && !(event.Receive? && event.message.AddressClaim? && event.message.source == node.address)
  {
    if event.Receive? && event.message.AddressClaim? {
      HearingAClaim(node, event.message.source, event.message.name);
    }
  }

  /** Everything a node publishes carries its current address, and a read-only node publishes nothing. */
  lemma OutputsCarryTheAddress(node: NodeState, event: Event, i: nat)
    requires Settled(node) && Enabled(node, event)
    requires i < |Step(node, event).outputs|
    ensures var after := Step(node, event);
            && !after.node.readOnly && after.node.state != Unclaimed
            && after.outputs[i].source == after.node.address <= MAX_ADDRESS
            && (after.outputs[i].ClaimOut? ==> after.outputs[i].name == node.name)
            && (!after.outputs[i].ClaimOut? ==> node.claimed && after.node.address == node.address)
  {
    if event.Receive? && event.message.AddressClaim? {
      HearingAClaim(node, event.message.source, event.message.name);
    }
  }

  /**
    An accepted claim puts a started node on the preferred address and announces
    it, unless the node is already waiting out its claim on that same address.
   */
  lemma ClaimingAnAddress(node: NodeState, preferred: Address)
    requires Settled(node) && node.started && node.infoSet && preferred <= MAX_ADDRESS
    ensures var after := Step(node, ClaimAddress(preferred));
            && after.accepted && Active(after.node)
            && after.node == node.(state := Claiming, address := preferred, preferred := preferred,
                                   readOnly := false, ticking := true)
            && after.outputs == (if node.state == Claiming && node.address == preferred then []
                                 else [ClaimOut(preferred, node.name)])
            && Step(after.node, ClaimTick) ==
                 Outcome(after.node.(state := Claimed, claimed := true, ticking := false), [], true)
  {
  }

  /** A node that loses its address and may choose another claims the nearest one on which it knows no device. */
  lemma LoserMovesOn(node: NodeState, name: Name)
    requires Settled(node) && Active(node) && name < node.name
    ensures var after := Step(node, Receive(AddressClaim(node.address, name))).node;
            var known := after.index.holders.Keys + after.index.unknown.Keys;
            if node.arbitrary && exists a: Address :: a <= 253 && a !in known
            then
              && after.state == Claiming && after.address <= 253 && after.address !in known
              && forall a: Address ::
                   a <= 253 && (a - node.address - 1) % 254 < (after.address - node.address - 1) % 254 ==> a in known
            else after.state == Lost && after.address == 255
  {
    HearingAClaim(node, node.address, name);
    var heard := AfterClaim(node.index, node.address, name);
    assert node.address in heard.holders;
    NextAvailableIsFirst(heard, node.address);
  }

  /** A node that has a claim pending when it starts announces it; any other starts in silence. */
  lemma StartingANode(node: NodeState)
    requires Settled(node) && !node.started
    ensures Step(node, Start) ==
              if node.state == Claiming
              then Outcome(node.(started := true, ticking := true, address := node.preferred),
                           [ClaimOut(node.preferred, node.name)], true)
              else Outcome(node.(started := true), [], true)
  {
  }

  /** Which API calls are accepted; a refused one changes nothing and publishes nothing. */
  lemma AcceptedCalls(node: NodeState, event: Event)
    requires Settled(node)
    ensures event.ClaimAddress? ==>
              (Step(node, event).accepted <==> event.preferred == 255 || (node.infoSet && event.preferred <= 253))
    ensures event == Start ==> (Step(node, event).accepted <==> !node.started)
    ensures event == Stop ==> (Step(node, event).accepted <==> node.started)
    ensures event.Write? ==> (Step(node, event).accepted <==> node.claimed)
    ensures event.Write? && node.claimed ==>
              Step(node, event).node == node
              && Step(node, event).outputs == [ApplicationOut(node.address, event.destination)]
    ensures (event.ClaimAddress? || event == Start || event == Stop || event.Write?) && !Step(node, event).accepted ==>
              Step(node, event).node == node && Step(node, event).outputs == []
  {
  }

  /** Stopping forgets the claim but not which devices are known, who the node is and what it preferred. */
  lemma StoppingForgets(node: NodeState)
    requires Settled(node) && node.started
    ensures Step(node, Stop) ==
              Outcome(NewNode(node.name, node.arbitrary, node.infoSet, node.configReadable).(
                        preferred := node.preferred, index := node.index), [], true)
  {
  }

  /** An answer to the asker from the node's own address. */
  predicate AnswersFrom(output: Output, node: NodeState, asker: Address, pgn: nat) {
    output == ReplyOut(node.address, asker, pgn)
  }

  /**
    What a request for a PGN is answered with: nothing by a node that may not
    write or is not addressed, else the claim, the product information, both PGN
    lists, or the configuration or a refusal, to the asker; nothing else changes.
   */
  lemma RequestsAreAnswered(node: NodeState, source: Address, target: Address, pgn: nat)
    requires Settled(node) && node.started
    ensures var after := Step(node, Receive(IsoRequest(source, target, Some(pgn))));
            && after.node == node
            && (!node.claimed || (target != 255 && target != node.address) ==> after.outputs == [])
            && (node.claimed && (target == 255 || target == node.address) ==>
                  && (pgn == 60928 ==> after.outputs == [ClaimOut(node.address, node.name)])
                  && (pgn == 126996 ==> |after.outputs| == 1 && AnswersFrom(after.outputs[0], node, source, 126996))
                  && (pgn == 126464 ==>
                        |after.outputs| == 2 && AnswersFrom(after.outputs[0], node, source, 126464)
                        && AnswersFrom(after.outputs[1], node, source, 126464))
                  && (pgn == 126998 ==>
                        |after.outputs| == 1
                        && AnswersFrom(after.outputs[0], node, source, if node.configReadable then 126998 else 59392))
                  && (pgn !in {60928, 126996, 126464, 126998} ==> after.outputs == []))
  {
    SettledStays(node);
  }

  /** A commanded address is obeyed exactly by writing nodes whose NAME it carries. */
  lemma ObeyingACommand(node: NodeState, name: Name, newAddress: Address)
    requires Settled(node) && node.started && newAddress <= MAX_ADDRESS
    ensures var after := Step(node, Receive(CommandedAddress(name, Some(newAddress))));
            if !node.readOnly && name == node.name % 0x8000_0000_0000_0000
            then
              && after.node == node.(state := Claiming, address := newAddress, preferred := newAddress,
                                     claimed := false, ticking := true)
              && after.outputs == (if node.state == Claiming && node.address == newAddress then []
                                   else [ClaimOut(newAddress, node.name)])
            else after.node == node && after.outputs == []
    ensures Step(node, Receive(CommandedAddress(name, None))) == Outcome(node, [], true)
  {
    SettledStays(node);
  }

  /** Entering read-only mode, or stopping, silences the node until the next accepted claim. */
  lemma ReadOnlyIsSilent(node: NodeState, event: Event)
    requires Settled(node) && Enabled(node, event)
    ensures event == ClaimAddress(NO_ADDRESS) || (event == Stop && node.started) ==>
              Step(node, event).node.readOnly && Step(node, event).outputs == []
    ensures node.readOnly && !(event.ClaimAddress? && node.infoSet && event.preferred <= MAX_ADDRESS) ==>
              Step(node, event).node.readOnly && Step(node, event).outputs == []
  {
    if event.Receive? && event.message.AddressClaim? {
      HearingAClaim(node, event.message.source, event.message.name);
    }
  }

  /** The claimed flag and the Claimed state agree. */
  predicate FlagAgrees(node: NodeState) {
    node.claimed <==> node.state == Claimed
  }

  /**
    The claimed flag is meant to say that the node owns its address, yet one API
    call keeps it raised while a new claim is still waiting: ClaimAddress on a
    node that is already Claimed. That call is the only step that breaks it.
   */
  lemma FlagAgreesUnlessReclaiming(node: NodeState, event: Event)
    requires Settled(node) && Enabled(node, event) && FlagAgrees(node)
    ensures FlagAgrees(Step(node, event).node) <==>
              !(event.ClaimAddress? && event.preferred <= MAX_ADDRESS && node.state == Claimed)
  {
    StepKeepsSettled(node, event);
    if event.Receive? && event.message.AddressClaim? {
      HearingAClaim(node, event.message.source, event.message.name);
    }
  }

  /** A node claimed on address 5 asks for 7 and at once may write as 7, before the claim time has passed. */
  lemma ReclaimingWritesEarly(node: NodeState)
    requires node == NewNode(1, false, true, false)
    ensures var started := Step(node, Start).node;
            var claiming := Step(started, ClaimAddress(5)).node;
            var claimed := Step(claiming, ClaimTick).node;
            var reclaiming := Step(claimed, ClaimAddress(7)).node;
            && FlagAgrees(claimed) && !FlagAgrees(reclaiming) && reclaiming.state == Claiming
            && Step(reclaiming, Write(GLOBAL)).outputs == [ApplicationOut(7, GLOBAL)]
  {
  }

  predicate ValidRun(node: NodeState, events: seq<Event>)
    decreases |events|
  {
    events == [] || (Enabled(node, events[0]) && ValidRun(Step(node, events[0]).node, events[1..]))
  }

  function Run(node: NodeState, events: seq<Event>): NodeState
    requires ValidRun(node, events)
    decreases |events|
  {
    if events == [] then node else Run(Step(node, events[0]).node, events[1..])
  }

  /** The invariant of every state a new node can reach. */
  lemma {:induction false} ReachableIsSettled(node: NodeState, events: seq<Event>)
    requires node == NewNode(node.name, node.arbitrary, node.infoSet, node.configReadable) || Settled(node)
    requires ValidRun(node, events)
    ensures Settled(Run(node, events)) && SameIdentity(Run(node, events), node)
    decreases |events|
  {
    if events != [] {
      StepKeepsSettled(node, events[0]);
      ReachableIsSettled(Step(node, events[0]).node, events[1..]);
    }
  }
}
