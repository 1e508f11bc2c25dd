/**
  The observed-device index of a node: three maps that record, for every NAME,
  the address it was last seen on, for every address its holder, and for every
  address without a known holder the product data seen there.
 */
module DeviceIndex {
  import opened Bits
  import opened Wrappers

  /** A uint8 source address as it appears in a frame. */
  type Address = a: int | 0 <= a < 256

  /** The 64-bit ISO NAME; smaller NAMEs have priority. */
  type Name = n: int | 0 <= n < 0x1_0000_0000_0000_0000

  const MAX_ADDRESS: Address := 253
  const NO_ADDRESS: Address := 255
  const ADDRESS_COUNT: int := 254

  datatype ProductInfo = ProductInfo(
    nmea2000Version: nat, productCode: nat, modelId: Text, softwareVersion: Text,
    modelVersion: Text, serialCode: Text, certificationLevel: nat, loadEquivalency: nat)

  datatype ConfigInfo = ConfigInfo(
    installationDescription1: Text, installationDescription2: Text, manufacturerInformation: Text)

  datatype KnownDevice = KnownDevice(
    address: Address, name: Name, product: Option<ProductInfo>, config: Option<ConfigInfo>,
    transmitPgns: Option<seq<nat>>, receivePgns: Option<seq<nat>>)

  /** Go's zero KnownDevice, except for the address. */
  function BlankDevice(address: Address): KnownDevice {
    KnownDevice(address, 0, None, None, None, None)
  }

  datatype Index = Index(
    devices: map<Name, KnownDevice>, holders: map<Address, Name>, unknown: map<Address, KnownDevice>)

  const EMPTY_INDEX: Index := Index(map[], map[], map[])

  /** What one non-claim message says about the device that sent it. */
  datatype Report =
    | Product(product: ProductInfo)
    | Config(config: ConfigInfo)
    | TransmitList(pgns: seq<nat>)
    | ReceiveList(pgns: seq<nat>)
    | OtherList

  function Overlay<T>(own: Option<T>, other: Option<T>): Option<T> {
    if own == None then other else own
  }

  /** append([]uint32(nil), list...): the copy of an empty list is nil. */
  function Copied(list: Option<seq<nat>>): Option<seq<nat>> {
    if list == Some([]) then None else list
  }

  /** cloneKnownDevice: what a caller gets to see of a record. */
  function Clone(device: KnownDevice): KnownDevice {
    device.(transmitPgns := Copied(device.transmitPgns), receivePgns := Copied(device.receivePgns))
  }

  /** mergeKnownDevice: own facts win, the overlay fills the gaps. */
  function Merge(device: KnownDevice, overlay: KnownDevice): KnownDevice {
    KnownDevice(
      if device.address == 0 then overlay.address else device.address, device.name,
      Overlay(device.product, overlay.product), Overlay(device.config, overlay.config),
      Overlay(device.transmitPgns, Copied(overlay.transmitPgns)), Overlay(device.receivePgns, Copied(overlay.receivePgns)))
  }

  /** Stores the facts of a report in a device record. */
  function Apply(device: KnownDevice, report: Report): KnownDevice {
    match report
    case Product(product) => device.(product := Some(product))
    case Config(config) => device.(config := Some(config))
    case TransmitList(pgns) => device.(transmitPgns := Some(pgns))
    case ReceiveList(pgns) => device.(receivePgns := Some(pgns))
    case OtherList => device
  }

  /** The index after an address claim of `name` from `source`. */
  function AfterClaim(index: Index, source: Address, name: Name): Index {
    var known := name in index.devices;
    var stored := if known then index.devices[name] else BlankDevice(0);
    var merged := if source in index.unknown then Merge(stored, index.unknown[source]) else stored;
    var displaced :=
      if source in index.holders && index.holders[source] != name
      then
        var previous := index.holders[source];
        var device := if previous in index.devices then index.devices[previous] else BlankDevice(0);
        index.devices[previous := device.(address := NO_ADDRESS)]
      else index.devices;
    var vacated :=
      if known && stored.address <= MAX_ADDRESS && stored.address != source
      then index.holders - {stored.address}
      else index.holders;
    Index(
      displaced[name := merged.(address := source, name := name)],
      vacated[source := name],
      index.unknown - {source})
  }

  /** knownDeviceForAddressLocked. */
  function DeviceAt(index: Index, source: Address): KnownDevice {
    if source in index.holders then
      var name := index.holders[source];
      if name in index.devices then index.devices[name] else BlankDevice(0)
    else if source in index.unknown then index.unknown[source]
    else BlankDevice(source)
  }

  /** setKnownDeviceForAddressLocked. */
  function Store(index: Index, source: Address, device: KnownDevice): Index {
    if device.name != 0
    then Index(index.devices[device.name := device], index.holders[source := device.name], index.unknown - {source})
    else index.(unknown := index.unknown[source := device])
  }

  /** The index after a product, configuration or PGN-list message from `source`. */
  function AfterReport(index: Index, source: Address, report: Report): Index {
    if report == OtherList then index
    else Store(index, source, Apply(DeviceAt(index, source).(address := source), report))
  }

  /** The consistency the three maps keep among themselves. */
  ghost predicate Consistent(index: Index) {
    && (forall n :: n in index.devices ==>
          n != 0 && index.devices[n].name == n
          && (index.devices[n].address <= MAX_ADDRESS || index.devices[n].address == NO_ADDRESS))
    && (forall n :: n in index.devices && index.devices[n].address <= MAX_ADDRESS ==>
          index.devices[n].address in index.holders && index.holders[index.devices[n].address] == n)
    && (forall a :: a in index.holders ==>
          a <= MAX_ADDRESS && index.holders[a] in index.devices && index.devices[index.holders[a]].address == a)
    && (forall a :: a in index.unknown ==>
          a <= MAX_ADDRESS && a !in index.holders && index.unknown[a].address == a && index.unknown[a].name == 0)
  }

  lemma ClaimKeepsConsistency(index: Index, source: Address, name: Name)
    requires Consistent(index) && source <= MAX_ADDRESS && name != 0
    ensures Consistent(AfterClaim(index, source, name))
  {
    var after := AfterClaim(index, source, name);
    assert after.devices[name].address == source;
    forall n | n in after.devices
      ensures n != 0 && after.devices[n].name == n
      ensures after.devices[n].address <= MAX_ADDRESS || after.devices[n].address == NO_ADDRESS
      ensures after.devices[n].address <= MAX_ADDRESS ==>
                after.devices[n].address in after.holders && after.holders[after.devices[n].address] == n
    {
      if n != name { assert n in index.devices; }
    }
  }

  /** A claim moves the claiming NAME to its address, sends the displaced NAME nowhere, and moves nobody else. */
  lemma ClaimMovesTheParties(index: Index, source: Address, name: Name, n: Name)
    requires Consistent(index) && source <= MAX_ADDRESS
    ensures n in AfterClaim(index, source, name).devices <==> n in index.devices || n == name
    ensures n in AfterClaim(index, source, name).devices ==>
              AfterClaim(index, source, name).devices[n].address ==
                if n == name then source
                else if index.devices[n].address == source then NO_ADDRESS
                else index.devices[n].address
  {
    if n in index.devices && n != name {
      assert index.devices[n].address == source <==> source in index.holders && index.holders[source] == n;
    }
  }

  /** A report moves nobody; it opens an entry for its source only when nobody holds that address. */
  lemma ReportMovesNobody(index: Index, source: Address, report: Report)
    requires Consistent(index) && source <= MAX_ADDRESS
    ensures AfterReport(index, source, report).devices.Keys == index.devices.Keys
    ensures forall n :: n in index.devices ==>
              AfterReport(index, source, report).devices[n].address == index.devices[n].address
    ensures AfterReport(index, source, report).unknown.Keys ==
              index.unknown.Keys + if report == OtherList || source in index.holders then {} else {source}
  {
    if report != OtherList {
      if source in index.holders {
        assert DeviceAt(index, source).name == index.holders[source];
        assert AfterReport(index, source, report).unknown == index.unknown - {source};
        assert source !in index.unknown;
      } else {
        assert DeviceAt(index, source).name == 0;
      }
    }
  }

  /** The facts of a device record, without its address. */
  function Facts(device: KnownDevice): KnownDevice {
    device.(address := 0)
  }

  /**
    A report lands in the record of the NAME that holds its source address, or
    in the unknown record of that address, and every other record keeps its facts.
   */
  lemma ReportReachesItsDevice(index: Index, source: Address, report: Report)
    requires Consistent(index) && source <= MAX_ADDRESS && report != OtherList
    ensures var after := AfterReport(index, source, report);
            if source in index.holders
            then
              var name := index.holders[source];
              && after.devices == index.devices[name := Apply(index.devices[name], report)]
              && after.holders == index.holders && after.unknown == index.unknown
            else
              && after.devices == index.devices && after.holders == index.holders
              && after.unknown == index.unknown[source :=
                   Apply(if source in index.unknown then index.unknown[source] else BlankDevice(source), report)]
  {
    if source in index.holders {
      assert index.unknown - {source} == index.unknown;
      assert index.holders[source := index.holders[source]] == index.holders;
    }
  }

  /** A fact that was known stays; one that was missing is the one learnt. */
  predicate Inherits<T(==)>(fact: Option<T>, own: Option<T>, learnt: Option<T>) {
    (own.Some? ==> fact == own) && (own.None? ==> fact == learnt)
  }

  /** The same for a list, but that an empty list learnt is taken for none. */
  predicate InheritsList(list: Option<seq<nat>>, own: Option<seq<nat>>, learnt: Option<seq<nat>>) {
    && (own.Some? ==> list == own)
    && (own.None? && learnt.Some? && learnt.value != [] ==> list == learnt)
    && (own.None? && (learnt.None? || learnt.value == []) ==> list == None)
  }

  /** A list as a caller sees it: an empty one looks like none. */
  predicate ShowsList(shown: Option<seq<nat>>, list: Option<seq<nat>>) {
    if list.Some? && list.value != [] then shown == list else shown == None
  }

  /** A caller sees of a record who it is, where it is, and every fact it has. */
  lemma CloneShows(device: KnownDevice)
    ensures var shown := Clone(device);
            && shown.address == device.address && shown.name == device.name
            && shown.product == device.product && shown.config == device.config
            && ShowsList(shown.transmitPgns, device.transmitPgns) && ShowsList(shown.receivePgns, device.receivePgns)
  {
  }

  /**
    A claim loses no facts but the emptiness of a PGN list: the claiming NAME
    keeps its own and inherits what was learnt about its address before anybody
    claimed it; all others keep theirs.
   */
  lemma ClaimKeepsFacts(index: Index, source: Address, name: Name, n: Name)
    requires Consistent(index) && source <= MAX_ADDRESS && name != 0
    ensures n != name && n in index.devices ==>
              Facts(AfterClaim(index, source, name).devices[n]) == Facts(index.devices[n])
    ensures var own := if name in index.devices then index.devices[name] else BlankDevice(0);
            var learnt := if source in index.unknown then index.unknown[source] else BlankDevice(0);
            var device := AfterClaim(index, source, name).devices[name];
            && Inherits(device.product, own.product, learnt.product)
            && Inherits(device.config, own.config, learnt.config)
            && InheritsList(device.transmitPgns, own.transmitPgns, learnt.transmitPgns)
            && InheritsList(device.receivePgns, own.receivePgns, learnt.receivePgns)
  {
    if source in index.holders && index.holders[source] != name {
      assert index.holders[source] in index.devices;
    }
  }

  lemma StoreKeepsConsistency(index: Index, source: Address, device: KnownDevice)
    requires Consistent(index) && source <= MAX_ADDRESS && device.address == source
    requires if source in index.holders then device.name == index.holders[source] else device.name == 0
    ensures Consistent(Store(index, source, device))
  {
    var after := Store(index, source, device);
    if source in index.holders {
      assert after.holders == index.holders;
      forall n | n in after.devices && n != device.name
        ensures n in index.devices && after.devices[n] == index.devices[n]
      {
      }
    }
  }

  lemma ReportKeepsConsistency(index: Index, source: Address, report: Report)
    requires Consistent(index) && source <= MAX_ADDRESS
    ensures Consistent(AfterReport(index, source, report))
  {
    if report != OtherList {
      var device := Apply(DeviceAt(index, source).(address := source), report);
      assert device.address == source;
      assert if source in index.holders then device.name == index.holders[source] else device.name == 0;
      StoreKeepsConsistency(index, source, device);
    }
  }
}
