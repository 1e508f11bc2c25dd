/**
  The device index read off the log of received messages, without maps: which
  claim of a NAME came last, and whether another NAME took the address since.
 */
module DeviceLog {
  import opened DeviceIndex
  import opened Wrappers

  datatype Entry =
    | ClaimEntry(source: Address, name: Name)
    | ReportEntry(source: Address, report: Report)

  /** What the node asks of the traffic: real addresses and non-zero NAMEs. */
  predicate WellSourced(log: seq<Entry>) {
    forall i :: 0 <= i < |log| ==>
      log[i].source <= MAX_ADDRESS && (log[i].ClaimEntry? ==> log[i].name != 0)
  }

  function After(index: Index, entry: Entry): Index {
    match entry
    case ClaimEntry(source, name) => AfterClaim(index, source, name)
    case ReportEntry(source, report) => AfterReport(index, source, report)
  }

  /** The index after processing the whole log, oldest entry first. */
  function Replay(log: seq<Entry>): Index {
    if log == [] then EMPTY_INDEX else After(Replay(log[..|log| - 1]), log[|log| - 1])
  }

  /** The position of the last claim made by `name`, or -1. */
  function LastClaim(log: seq<Entry>, name: Name): (i: int)
    ensures -1 <= i < |log|
    ensures i >= 0 ==> log[i].ClaimEntry? && log[i].name == name
    ensures forall j :: i < j < |log| ==> !(log[j].ClaimEntry? && log[j].name == name)
  {
    if log == [] then -1
    else
      var last := |log| - 1;
      if log[last].ClaimEntry? && log[last].name == name then last else LastClaim(log[..last], name)
  }

  /** Some other NAME claimed `source` after position i. */
  ghost predicate TakenAfter(log: seq<Entry>, i: int, source: Address, name: Name) {
    exists j :: i < j < |log| && 0 <= j && log[j].ClaimEntry? && log[j].source == source && log[j].name != name
  }

  /** Where the log says `name` is: its last claimed address, or nowhere once another NAME took it. */
  ghost function RecordedAddress(log: seq<Entry>, name: Name): Address
    requires LastClaim(log, name) >= 0
  {
    var i := LastClaim(log, name);
    if TakenAfter(log, i, log[i].source, name) then NO_ADDRESS else log[i].source
  }

  ghost predicate Holds(log: seq<Entry>, name: Name, source: Address) {
    LastClaim(log, name) >= 0 && RecordedAddress(log, name) == source
  }

  ghost predicate ReportFromUnnamed(log: seq<Entry>, i: nat, source: Address)
    requires i < |log|
  {
    && log[i].ReportEntry? && log[i].source == source && log[i].report != OtherList
    && (forall n :: !Holds(log[..i], n, source))
  }

  ghost predicate ClaimedAfter(log: seq<Entry>, i: int, source: Address) {
    exists j :: i < j < |log| && 0 <= j && log[j].ClaimEntry? && log[j].source == source
  }

  /** `source` reported something while no NAME held it, and nobody claimed it since. */
  ghost predicate Unnamed(log: seq<Entry>, source: Address) {
    exists i :: 0 <= i < |log| && ReportFromUnnamed(log, i, source) && !ClaimedAfter(log, i, source)
  }

  ghost predicate Mirrors(index: Index, log: seq<Entry>) {
    && (forall n :: n in index.devices <==> LastClaim(log, n) >= 0)
    && (forall n :: n in index.devices ==> index.devices[n].address == RecordedAddress(log, n))
    && (forall a :: a in index.unknown <==> Unnamed(log, a))
  }

  /** One more entry moves at most the NAME that claims and the NAME it displaces. */
  lemma RecordedAddressStep(log: seq<Entry>, entry: Entry, name: Name)
    ensures LastClaim(log + [entry], name) >= 0 <==>
              LastClaim(log, name) >= 0 || (entry.ClaimEntry? && entry.name == name)
    ensures LastClaim(log + [entry], name) >= 0 ==>
              RecordedAddress(log + [entry], name) ==
                if entry.ClaimEntry? && entry.name == name then entry.source
                else if entry.ClaimEntry? && entry.source == RecordedAddress(log, name) then NO_ADDRESS
                else RecordedAddress(log, name)
  {
    var longer := log + [entry];
    assert longer[..|log|] == log;
    if LastClaim(log, name) >= 0 && !(entry.ClaimEntry? && entry.name == name) {
      var i := LastClaim(log, name);
      var source := log[i].source;
      assert LastClaim(longer, name) == i;
      if TakenAfter(log, i, source, name) {
        var j :| i < j < |log| && 0 <= j && log[j].ClaimEntry? && log[j].source == source && log[j].name != name;
        assert longer[j] == log[j];
      } else if entry.ClaimEntry? && entry.source == source {
        assert longer[|log|] == entry;
      }
    }
  }

  lemma UnnamedStep(log: seq<Entry>, entry: Entry, source: Address)
    ensures Unnamed(log + [entry], source) <==>
              if entry.source != source then Unnamed(log, source)
              else if entry.ClaimEntry? then false
              else Unnamed(log, source) || (entry.report != OtherList && forall n :: !Holds(log, n, source))
  {
    var longer := log + [entry];
    assert longer[..|log|] == log && longer[|log|] == entry;
    assert forall i | 0 <= i < |log| :: longer[i] == log[i] && longer[..i] == log[..i];
    assert forall i | 0 <= i < |log| :: ReportFromUnnamed(longer, i, source) == ReportFromUnnamed(log, i, source);
    forall i | 0 <= i < |log|
      ensures ClaimedAfter(longer, i, source) <==>
                ClaimedAfter(log, i, source) || (entry.ClaimEntry? && entry.source == source)
    {
      if ClaimedAfter(log, i, source) {
        var j :| i < j < |log| && 0 <= j && log[j].ClaimEntry? && log[j].source == source;
        assert longer[j].ClaimEntry? && longer[j].source == source;
      }
    }
    if Unnamed(log, source) {
      var i :| 0 <= i < |log| && ReportFromUnnamed(log, i, source) && !ClaimedAfter(log, i, source);
      assert ReportFromUnnamed(longer, i, source);
    }
    assert !ClaimedAfter(longer, |log|, source);
    assert ReportFromUnnamed(longer, |log|, source) <==>
        entry.ReportEntry? && entry.source == source && entry.report != OtherList && forall n :: !Holds(log, n, source);
  }

  /** Consistency makes "some NAME holds it" and "it is a key of the holder map" the same. */
  lemma HoldersAreHeld(index: Index, log: seq<Entry>, source: Address)
    requires Consistent(index) && Mirrors(index, log) && source <= MAX_ADDRESS
    ensures source in index.holders <==> exists n :: Holds(log, n, source)
    ensures source in index.holders ==> Holds(log, index.holders[source], source)
  {
    if n :| Holds(log, n, source) {
      assert n in index.devices && index.devices[n].address == source;
    }
    if source in index.holders {
      assert Holds(log, index.holders[source], source);
    }
  }

  lemma ClaimStaysMirrored(index: Index, log: seq<Entry>, source: Address, name: Name)
    requires Consistent(index) && Mirrors(index, log) && source <= MAX_ADDRESS && name != 0
    ensures Mirrors(AfterClaim(index, source, name), log + [ClaimEntry(source, name)])
  {
    var entry := ClaimEntry(source, name);
    var after := AfterClaim(index, source, name);
    forall n
      ensures n in after.devices <==> LastClaim(log + [entry], n) >= 0
      ensures n in after.devices ==> after.devices[n].address == RecordedAddress(log + [entry], n)
    {
      RecordedAddressStep(log, entry, n);
      ClaimMovesTheParties(index, source, name, n);
    }
    forall a ensures a in after.unknown <==> Unnamed(log + [entry], a) {
      UnnamedStep(log, entry, a);
    }
  }

  lemma ReportStaysMirrored(index: Index, log: seq<Entry>, source: Address, report: Report)
    requires Consistent(index) && Mirrors(index, log) && source <= MAX_ADDRESS
    ensures Mirrors(AfterReport(index, source, report), log + [ReportEntry(source, report)])
  {
    var entry := ReportEntry(source, report);
    var after := AfterReport(index, source, report);
    ReportMovesNobody(index, source, report);
    forall n
      ensures n in after.devices <==> LastClaim(log + [entry], n) >= 0
      ensures n in after.devices ==> after.devices[n].address == RecordedAddress(log + [entry], n)
    {
      RecordedAddressStep(log, entry, n);
    }
    HoldersAreHeld(index, log, source);
    forall a ensures a in after.unknown <==> Unnamed(log + [entry], a) {
      UnnamedStep(log, entry, a);
    }
  }

  /**
    The index is a fold over the log: it lists exactly the NAMEs that claimed,
    each at its last claimed address unless another NAME claimed it later; the
    address map inverts this on 0..253; the unknown table holds exactly the
    addresses heard from while nobody held them.
   */
  lemma {:induction false} IndexIsFoldOfLog(log: seq<Entry>)
    requires WellSourced(log)
    ensures Consistent(Replay(log))
    ensures Mirrors(Replay(log), log)
    ensures forall a: Address, n: Name :: a <= MAX_ADDRESS ==>
              (a in Replay(log).holders && Replay(log).holders[a] == n <==> Holds(log, n, a))
  {
    if log != [] {
      var shorter, entry := log[..|log| - 1], log[|log| - 1];
      assert log == shorter + [entry];
      IndexIsFoldOfLog(shorter);
      match entry
      case ClaimEntry(source, name) =>
        ClaimKeepsConsistency(Replay(shorter), source, name);
        ClaimStaysMirrored(Replay(shorter), shorter, source, name);
      case ReportEntry(source, report) =>
        ReportKeepsConsistency(Replay(shorter), source, report);
        ReportStaysMirrored(Replay(shorter), shorter, source, report);
    }
    forall a: Address, n: Name | a <= MAX_ADDRESS
      ensures a in Replay(log).holders && Replay(log).holders[a] == n <==> Holds(log, n, a)
    {
      HoldersAreHeld(Replay(log), log, a);
      if Holds(log, n, a) { assert n in Replay(log).devices; }
    }
  }

  /** Some NAME holds this address after the log. */
  ghost predicate Held(log: seq<Entry>, source: Address) {
    exists n :: Holds(log, n, source)
  }

  /** What was learnt about an address since it was last claimed, while nobody held it. */
  ghost function LearntAt(log: seq<Entry>, source: Address): KnownDevice {
    if log == [] then BlankDevice(0)
    else
      var before, entry := log[..|log| - 1], log[|log| - 1];
      if entry.source != source then LearntAt(before, source)
      else if entry.ClaimEntry? then BlankDevice(0)
      else if Held(before, source) then LearntAt(before, source)
      else Apply(LearntAt(before, source), entry.report)
  }

  /** What the log says of a NAME: what it reported from addresses it held, and what it found at those it claimed. */
  ghost function FactsOf(log: seq<Entry>, name: Name): KnownDevice {
    if log == [] then BlankDevice(0)
    else
      var before, entry := log[..|log| - 1], log[|log| - 1];
      if entry.ClaimEntry? then
        if entry.name == name then Merge(FactsOf(before, name), LearntAt(before, entry.source)) else FactsOf(before, name)
      else if Holds(before, name, entry.source) then Apply(FactsOf(before, name), entry.report)
      else FactsOf(before, name)
  }

  /** The same product, configuration and lists. */
  predicate SameFacts(a: KnownDevice, b: KnownDevice) {
    && a.product == b.product && a.config == b.config
    && a.transmitPgns == b.transmitPgns && a.receivePgns == b.receivePgns
  }

  function NamedRecord(index: Index, name: Name): KnownDevice {
    if name in index.devices then index.devices[name] else BlankDevice(0)
  }

  function UnknownRecord(index: Index, source: Address): KnownDevice {
    if source in index.unknown then index.unknown[source] else BlankDevice(0)
  }

  ghost predicate Remembers(index: Index, log: seq<Entry>) {
    && (forall n :: SameFacts(NamedRecord(index, n), FactsOf(log, n)))
    && (forall a :: SameFacts(UnknownRecord(index, a), LearntAt(log, a)))
  }

  lemma OneMoreEntry(log: seq<Entry>, entry: Entry, name: Name, source: Address)
    ensures FactsOf(log + [entry], name) ==
              if entry.ClaimEntry? then
                if entry.name == name then Merge(FactsOf(log, name), LearntAt(log, entry.source)) else FactsOf(log, name)
              else if Holds(log, name, entry.source) then Apply(FactsOf(log, name), entry.report)
              else FactsOf(log, name)
    ensures LearntAt(log + [entry], source) ==
              if entry.source != source then LearntAt(log, source)
              else if entry.ClaimEntry? then BlankDevice(0)
              else if Held(log, source) then LearntAt(log, source)
              else Apply(LearntAt(log, source), entry.report)
  {
    assert (log + [entry])[..|log|] == log;
  }

  lemma ClaimIsRemembered(index: Index, log: seq<Entry>, source: Address, name: Name)
    requires Consistent(index) && Remembers(index, log) && source <= MAX_ADDRESS && name != 0
    ensures Remembers(AfterClaim(index, source, name), log + [ClaimEntry(source, name)])
  {
    var after, entry := AfterClaim(index, source, name), ClaimEntry(source, name);
    forall n ensures SameFacts(NamedRecord(after, n), FactsOf(log + [entry], n)) {
      OneMoreEntry(log, entry, n, source);
      ClaimKeepsFacts(index, source, name, n);
      ClaimMovesTheParties(index, source, name, n);
      assert SameFacts(NamedRecord(index, n), FactsOf(log, n));
      assert SameFacts(UnknownRecord(index, source), LearntAt(log, source));
    }
    forall a ensures SameFacts(UnknownRecord(after, a), LearntAt(log + [entry], a)) {
      OneMoreEntry(log, entry, name, a);
      assert SameFacts(UnknownRecord(index, a), LearntAt(log, a));
    }
  }

  /** What a report does to the record of one NAME. */
  lemma ReportInNamedRecord(index: Index, source: Address, report: Report, n: Name)
    requires Consistent(index) && source <= MAX_ADDRESS
    ensures SameFacts(
              NamedRecord(AfterReport(index, source, report), n),
              if source in index.holders && index.holders[source] == n then Apply(NamedRecord(index, n), report)
              else NamedRecord(index, n))
  {
    if report != OtherList { ReportReachesItsDevice(index, source, report); }
  }

  /** What a report does to the unknown record of one address. */
  lemma ReportInUnknownRecord(index: Index, source: Address, report: Report, a: Address)
    requires Consistent(index) && source <= MAX_ADDRESS
    ensures SameFacts(
              UnknownRecord(AfterReport(index, source, report), a),
              if a == source && source !in index.holders then Apply(UnknownRecord(index, a), report)
              else UnknownRecord(index, a))
  {
    if report != OtherList { ReportReachesItsDevice(index, source, report); }
  }

  lemma ReportIsRemembered(index: Index, log: seq<Entry>, source: Address, report: Report)
    requires Consistent(index) && Mirrors(index, log) && Remembers(index, log) && source <= MAX_ADDRESS
    ensures Remembers(AfterReport(index, source, report), log + [ReportEntry(source, report)])
  {
    var after, entry := AfterReport(index, source, report), ReportEntry(source, report);
    forall n ensures SameFacts(NamedRecord(after, n), FactsOf(log + [entry], n)) {
      OneMoreEntry(log, entry, n, source);
      HolderIsUnique(index, log, source, n);
      ReportInNamedRecord(index, source, report, n);
      assert SameFacts(NamedRecord(index, n), FactsOf(log, n));
    }
    forall a ensures SameFacts(UnknownRecord(after, a), LearntAt(log + [entry], a)) {
      OneMoreEntry(log, entry, 0, a);
      HoldersAreHeld(index, log, source);
      ReportInUnknownRecord(index, source, report, a);
      assert SameFacts(UnknownRecord(index, a), LearntAt(log, a));
    }
  }

  lemma HolderIsUnique(index: Index, log: seq<Entry>, source: Address, name: Name)
    requires Consistent(index) && Mirrors(index, log) && source <= MAX_ADDRESS
    ensures Holds(log, name, source) <==> source in index.holders && index.holders[source] == name
  {
    HoldersAreHeld(index, log, source);
    if Holds(log, name, source) { assert name in index.devices; }
  }

  /**
    The facts in the index are a fold of the log too: a NAME's record holds what
    it reported from the addresses it held, over what had been learnt at the
    addresses it claimed; an unknown record holds what was learnt at its address.
   */
  lemma {:induction false} FactsAreFoldOfLog(log: seq<Entry>)
    requires WellSourced(log)
    ensures Remembers(Replay(log), log)
  {
    if log != [] {
      var shorter, entry := log[..|log| - 1], log[|log| - 1];
      assert log == shorter + [entry];
      IndexIsFoldOfLog(shorter);
      FactsAreFoldOfLog(shorter);
      match entry
      case ClaimEntry(source, name) => ClaimIsRemembered(Replay(shorter), shorter, source, name);
      case ReportEntry(source, report) => ReportIsRemembered(Replay(shorter), shorter, source, report);
    }
  }

  /** Reports of which the later replaces the earlier. */
  predicate SameKind(a: Report, b: Report) {
    match a
    case Product(_) => b.Product?
    case Config(_) => b.Config?
    case TransmitList(_) => b.TransmitList?
    case ReceiveList(_) => b.ReceiveList?
    case OtherList => b.OtherList?
  }

  /** A NAME reported this as the i-th entry, from an address it held then. */
  ghost predicate Reported(log: seq<Entry>, i: nat, name: Name)
    requires i < |log|
  {
    log[i].ReportEntry? && Holds(log[..i], name, log[i].source)
  }

  /** A record says what the report says. */
  predicate Says(device: KnownDevice, report: Report) {
    match report
    case Product(product) => device.product == Some(product)
    case Config(config) => device.config == Some(config)
    case TransmitList(pgns) => device.transmitPgns == Some(pgns)
    case ReceiveList(pgns) => device.receivePgns == Some(pgns)
    case OtherList => true
  }

  lemma {:induction false} LastReportIsSaid(log: seq<Entry>, name: Name, i: nat)
    requires i < |log| && Reported(log, i, name)
    requires forall j :: i < j < |log| && Reported(log, j, name) ==> !SameKind(log[i].report, log[j].report)
    ensures Says(FactsOf(log, name), log[i].report)
    decreases |log|
  {
    var shorter, last := log[..|log| - 1], |log| - 1;
    if i < last {
      assert shorter[..i] == log[..i];
      forall j | i < j < |shorter| && Reported(shorter, j, name) ensures !SameKind(shorter[i].report, shorter[j].report) {
        assert shorter[..j] == log[..j];
        assert Reported(log, j, name);
      }
      LastReportIsSaid(shorter, name, i);
      if log[last].ReportEntry? && Holds(shorter, name, log[last].source) {
        assert log[..last] == shorter;
        assert Reported(log, last, name);
      }
    }
  }

  /** The last report of a kind that a NAME made from an address it held is what the index says of it. */
  lemma LastReportIsRecorded(log: seq<Entry>, name: Name, i: nat)
    requires WellSourced(log) && i < |log| && Reported(log, i, name)
    requires forall j :: i < j < |log| && Reported(log, j, name) ==> !SameKind(log[i].report, log[j].report)
    ensures name in Replay(log).devices && Says(Replay(log).devices[name], log[i].report)
  {
    LastReportIsSaid(log, name, i);
    IndexIsFoldOfLog(log);
    FactsAreFoldOfLog(log);
    ClaimsStay(log, name, i);
    RecordSays(Replay(log), log, name, log[i].report);
  }

  lemma RecordSays(index: Index, log: seq<Entry>, name: Name, report: Report)
    requires Mirrors(index, log) && Remembers(index, log) && LastClaim(log, name) >= 0 && Says(FactsOf(log, name), report)
    ensures name in index.devices && Says(index.devices[name], report)
  {
    assert SameFacts(NamedRecord(index, name), FactsOf(log, name));
  }

  lemma ClaimsStay(log: seq<Entry>, name: Name, i: nat)
    requires i <= |log| && LastClaim(log[..i], name) >= 0
    ensures LastClaim(log, name) >= 0
  {
    var j := LastClaim(log[..i], name);
    assert log[j] == log[..i][j];
  }
}
