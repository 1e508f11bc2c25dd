/** The 64-bit NAME of a device: how it is packed, compared, claimed and commanded. */
module DeviceName {
  import opened BinaryData
  import opened Bits
  import opened BitStream
  import DeviceIndex
  import NodeModel
  import opened Wrappers

  datatype DeviceInfo = DeviceInfo(
    uniqueNumber: nat, manufacturerCode: nat, deviceFunction: nat, deviceClass: nat,
    deviceInstanceLower: nat, deviceInstanceUpper: nat, systemInstance: nat, industryGroup: nat,
    arbitraryAddressCapable: bool)

  /** A number and where its least significant bit goes. */
  datatype Placed = Placed(value: nat, shift: nat)

  /** name |= uint64(value) << shift, for the first n fields; an absent field is left out. */
  function OrPresent(fields: seq<Option<Placed>>, n: nat): nat
    requires n <= |fields|
  {
    if n == 0 then 0
    else
      var name := OrPresent(fields, n - 1);
      if fields[n - 1].None? then name
      else Or(name, Low(Shl(fields[n - 1].value.value, fields[n - 1].value.shift), 64))
  }

  /** The shifts of the ten parts of a NAME, and where the next part begins. */
  function Shifts(): (shifts: seq<nat>)
    ensures |shifts| == 11
  {
    [0, 21, 32, 35, 40, 48, 49, 56, 60, 63, 64]
  }

  predicate ValidInfo(d: DeviceInfo) {
    && d.uniqueNumber <= 0x1FFFFF && d.manufacturerCode <= 0x7FF
    && d.deviceInstanceLower <= 7 && d.deviceInstanceUpper <= 31
    && d.deviceFunction <= 255 && d.deviceClass <= 127
    && d.systemInstance <= 15 && d.industryGroup <= 7
  }

  /** The parts of a NAME from its least significant bit up; the sixth is reserved. */
  function Parts(d: DeviceInfo): (parts: seq<nat>)
    ensures |parts| == 10
  {
    [d.uniqueNumber, d.manufacturerCode, d.deviceInstanceLower, d.deviceInstanceUpper, d.deviceFunction,
     0, d.deviceClass, d.systemInstance, d.industryGroup, if d.arbitraryAddressCapable then 1 else 0]
  }

  /** Every part at its shift. */
  function Place(parts: seq<nat>, shifts: seq<nat>): (fields: seq<Option<Placed>>)
    requires |parts| <= |shifts|
    ensures |fields| == |parts|
    ensures forall i :: 0 <= i < |parts| ==> fields[i] == Some(Placed(parts[i], shifts[i]))
  {
    if parts == [] then []
    else Place(parts[..|parts| - 1], shifts) + [Some(Placed(parts[|parts| - 1], shifts[|parts| - 1]))]
  }

  /** computeName: the checks, then the parts or-ed together. */
  function ComputeName(d: DeviceInfo): Result<nat> {
    if d.uniqueNumber > 0x1FFFFF then Err
    else if d.manufacturerCode > 0x7FF then Err
    else if d.deviceInstanceLower > 7 then Err
    else if d.deviceInstanceUpper > 31 then Err
    else if d.deviceFunction > 255 then Err
    else if d.deviceClass > 127 then Err
    else if d.systemInstance > 15 then Err
    else if d.industryGroup > 7 then Err
    else Ok(OrPresent(Place(Parts(d), Shifts()), 10))
  }

  /** Shifts grow within a 64-bit word. */
  ghost predicate Layout(shifts: seq<nat>) {
    && |shifts| > 0 && shifts[0] == 0
    && (forall i, j :: 0 <= i < j < |shifts| ==> shifts[i] < shifts[j])
    && (forall i :: 0 <= i < |shifts| ==> shifts[i] <= 64)
  }

  /** Every part is small enough to end where the next begins. */
  ghost predicate Fit(parts: seq<nat>, shifts: seq<nat>) {
    && Layout(shifts) && |parts| < |shifts|
    && forall i :: 0 <= i < |parts| ==> parts[i] < Pow2(shifts[i + 1] - shifts[i])
  }

  /** The number with these digits at these places. */
  function Sum(parts: seq<nat>, shifts: seq<nat>, n: nat): nat
    requires n <= |parts| <= |shifts|
  {
    if n == 0 then 0 else Sum(parts, shifts, n - 1) + parts[n - 1] * Pow2(shifts[n - 1])
  }

  lemma OneMorePart(sum: nat, part: nat, shift: nat, next: nat)
    requires shift < next && sum < Pow2(shift) && part < Pow2(next - shift)
    ensures sum + part * Pow2(shift) < Pow2(next)
  {
    PowersMultiply(next - shift, shift);
    TimesBelow(part, Pow2(next - shift), Pow2(shift));
  }

  lemma TimesBelow(a: nat, b: nat, m: nat)
    requires a < b
    ensures a * m + m <= b * m
  {
    var gap := b - (a + 1);
    assert b * m == (a + 1) * m + gap * m by { Distributes(a + 1, gap, m); }
  }

  lemma Distributes(a: nat, b: nat, m: nat)
    ensures (a + b) * m == a * m + b * m
  {
  }

  lemma {:induction false} SumFits(parts: seq<nat>, shifts: seq<nat>, n: nat)
    requires Fit(parts, shifts) && n <= |parts|
    ensures Sum(parts, shifts, n) < Pow2(shifts[n])
  {
    if n > 0 {
      SumFits(parts, shifts, n - 1);
      OneMorePart(Sum(parts, shifts, n - 1), parts[n - 1], shifts[n - 1], shifts[n]);
    }
  }

  lemma OrIsPlus(name: nat, part: nat, shift: nat, next: nat, word: nat)
    requires next <= word && name < Pow2(shift) && name + part * Pow2(shift) < Pow2(next)
    ensures Or(name, Low(Shl(part, shift), word)) == name + part * Pow2(shift)
  {
    if next < word { PowersGrow(next, word); }
    LowFits(Shl(part, shift), word);
    OrOfDisjoint(part, name, shift);
  }

  lemma OrOneMore(fields: seq<Option<Placed>>, n: nat, part: nat, shift: nat, next: nat, name: nat)
    requires 0 < n <= |fields| && next <= 64 && OrPresent(fields, n - 1) == name
    requires fields[n - 1] == Some(Placed(part, shift)) || (fields[n - 1] == None && part == 0)
    requires name < Pow2(shift) && name + part * Pow2(shift) < Pow2(next)
    ensures OrPresent(fields, n) == name + part * Pow2(shift)
  {
    OrIsPlus(name, part, shift, next, 64);
  }

  /** Or-ing parts that fit is adding them. */
  lemma {:induction false} OrIsSum(fields: seq<Option<Placed>>, parts: seq<nat>, shifts: seq<nat>, n: nat)
    requires Fit(parts, shifts) && n <= |parts| == |fields|
    requires forall i :: 0 <= i < |parts| ==>
               fields[i] == Some(Placed(parts[i], shifts[i])) || (fields[i] == None && parts[i] == 0)
    ensures OrPresent(fields, n) == Sum(parts, shifts, n)
  {
    if n > 0 {
      OrIsSum(fields, parts, shifts, n - 1);
      SumFits(parts, shifts, n - 1);
      SumFits(parts, shifts, n);
      OrOneMore(fields, n, parts[n - 1], shifts[n - 1], shifts[n], Sum(parts, shifts, n - 1));
    }
  }

  /** The first of the parts that differ, from the most significant down, is smaller in a. */
  predicate Before(a: seq<nat>, b: seq<nat>, n: nat)
    requires n <= |a| && n <= |b|
  {
    n > 0 && (a[n - 1] < b[n - 1] || (a[n - 1] == b[n - 1] && Before(a, b, n - 1)))
  }

  lemma TopPartDecides(x: nat, y: nat, a: nat, b: nat, m: nat)
    requires x < m && y < m
    ensures x + a * m < y + b * m <==> a < b || (a == b && x < y)
  {
    if a < b { TimesBelow(a, b, m); } else if b < a { TimesBelow(b, a, m); }
  }

  lemma {:induction false} SumsAreOrdered(a: seq<nat>, b: seq<nat>, shifts: seq<nat>, n: nat)
    requires Fit(a, shifts) && Fit(b, shifts) && n <= |a| && n <= |b|
    ensures Sum(a, shifts, n) < Sum(b, shifts, n) <==> Before(a, b, n)
  {
    if n > 0 {
      SumsAreOrdered(a, b, shifts, n - 1);
      SumFits(a, shifts, n - 1);
      SumFits(b, shifts, n - 1);
      TopPartDecides(Sum(a, shifts, n - 1), Sum(b, shifts, n - 1), a[n - 1], b[n - 1], Pow2(shifts[n - 1]));
    }
  }

  lemma {:induction false} NeitherBefore(a: seq<nat>, b: seq<nat>, n: nat)
    requires n <= |a| && n <= |b| && !Before(a, b, n) && !Before(b, a, n)
    ensures forall i :: 0 <= i < n ==> a[i] == b[i]
  {
    if n > 0 { NeitherBefore(a, b, n - 1); }
  }

  lemma SmallPowers()
    ensures Pow2(1) == 2 && Pow2(3) == 8 && Pow2(4) == 16 && Pow2(5) == 32
    ensures Pow2(7) == 128 && Pow2(8) == 256 && Pow2(11) == 0x800 && Pow2(21) == 0x20_0000
  {
  }

  lemma ShiftsAreLayout()
    ensures Layout(Shifts())
  {
  }

  lemma PartsAreSmall(d: DeviceInfo)
    requires ValidInfo(d)
    ensures forall i :: 0 <= i < 10 ==> Parts(d)[i] < Pow2(Shifts()[i + 1] - Shifts()[i])
  {
    SmallPowers();
  }

  lemma ValidInfoFits(d: DeviceInfo)
    requires ValidInfo(d)
    ensures Fit(Parts(d), Shifts())
  {
    ShiftsAreLayout();
    PartsAreSmall(d);
  }

  /** A NAME exists exactly for valid device information, and is the sum of its parts. */
  lemma NameIsSum(d: DeviceInfo)
    ensures ComputeName(d).Ok? <==> ValidInfo(d)
    ensures ValidInfo(d) ==> ComputeName(d).value == Sum(Parts(d), Shifts(), 10)
  {
    if ValidInfo(d) {
      ValidInfoFits(d);
      OrIsSum(Place(Parts(d), Shifts()), Parts(d), Shifts(), 10);
    }
  }

  lemma Weights()
    ensures Pow2(0) == 1 && Pow2(32) == 0x1_0000_0000 && Pow2(21) == 0x20_0000
    ensures Pow2(35) == 0x8_0000_0000 && Pow2(40) == 0x100_0000_0000 && Pow2(49) == 0x2_0000_0000_0000
    ensures Pow2(56) == 0x100_0000_0000_0000 && Pow2(60) == 0x1000_0000_0000_0000 && Pow2(63) == 0x8000_0000_0000_0000
  {
    PowersOfTwo();
    PowersMultiply(18, 3);
    PowersMultiply(3, 32);
    PowersMultiply(8, 32);
    PowersMultiply(31, 18);
    PowersMultiply(5, 51);
    PowersMultiply(12, 39);
    PowersMultiply(8, 31);
    PowersMultiply(31, 31);
  }

  /** Where every field is in a NAME, bit 48 being reserved. */
  function Packed(unique: nat, manufacturer: nat, lower: nat, upper: nat, deviceFunction: nat,
                  deviceClass: nat, system: nat, industry: nat, arbitrary: nat): nat {
    unique + 0x20_0000 * manufacturer + 0x1_0000_0000 * lower + 0x8_0000_0000 * upper + 0x100_0000_0000 * deviceFunction
    + 0x2_0000_0000_0000 * deviceClass + 0x100_0000_0000_0000 * system + 0x1000_0000_0000_0000 * industry
    + 0x8000_0000_0000_0000 * arbitrary
  }

  lemma LowerHalf(parts: seq<nat>)
    requires |parts| == 10
    ensures Sum(parts, Shifts(), 5) ==
              parts[0] + 0x20_0000 * parts[1] + 0x1_0000_0000 * parts[2] + 0x8_0000_0000 * parts[3]
              + 0x100_0000_0000 * parts[4]
  {
    Weights();
    assert Sum(parts, Shifts(), 1) == parts[0];
    assert Sum(parts, Shifts(), 2) == Sum(parts, Shifts(), 1) + parts[1] * Pow2(21);
    assert Sum(parts, Shifts(), 3) == Sum(parts, Shifts(), 2) + parts[2] * Pow2(32);
    assert Sum(parts, Shifts(), 4) == Sum(parts, Shifts(), 3) + parts[3] * Pow2(35);
    assert Sum(parts, Shifts(), 5) == Sum(parts, Shifts(), 4) + parts[4] * Pow2(40);
  }

  lemma UpperHalf(parts: seq<nat>)
    requires |parts| == 10 && parts[5] == 0
    ensures Sum(parts, Shifts(), 10) == Sum(parts, Shifts(), 9) + 0x8000_0000_0000_0000 * parts[9]
    ensures Sum(parts, Shifts(), 9) ==
              Sum(parts, Shifts(), 5) + 0x2_0000_0000_0000 * parts[6] + 0x100_0000_0000_0000 * parts[7]
              + 0x1000_0000_0000_0000 * parts[8]
  {
    Weights();
    assert Sum(parts, Shifts(), 6) == Sum(parts, Shifts(), 5);
    assert Sum(parts, Shifts(), 7) == Sum(parts, Shifts(), 6) + parts[6] * Pow2(49);
    assert Sum(parts, Shifts(), 8) == Sum(parts, Shifts(), 7) + parts[7] * Pow2(56);
    assert Sum(parts, Shifts(), 9) == Sum(parts, Shifts(), 8) + parts[8] * Pow2(60);
    assert Sum(parts, Shifts(), 10) == Sum(parts, Shifts(), 9) + parts[9] * Pow2(63);
  }

  /** The layout of a NAME: which field is at which bits. */
  lemma NameLayout(d: DeviceInfo)
    requires ValidInfo(d)
    ensures ComputeName(d) == Ok(Packed(
              d.uniqueNumber, d.manufacturerCode, d.deviceInstanceLower, d.deviceInstanceUpper, d.deviceFunction,
              d.deviceClass, d.systemInstance, d.industryGroup, if d.arbitraryAddressCapable then 1 else 0))
  {
    NameIsSum(d);
    LowerHalf(Parts(d));
    UpperHalf(Parts(d));
  }

  /** NAMEs are compared part by part: arbitrary-address bit, industry group, system instance, class, function, ... */
  lemma NamesAreOrdered(d: DeviceInfo, e: DeviceInfo)
    requires ValidInfo(d) && ValidInfo(e)
    ensures ComputeName(d).value < ComputeName(e).value <==> Before(Parts(d), Parts(e), 10)
  {
    NameIsSum(d);
    NameIsSum(e);
    ValidInfoFits(d);
    ValidInfoFits(e);
    SumsAreOrdered(Parts(d), Parts(e), Shifts(), 10);
  }

  /** Devices that differ in any field have different NAMEs. */
  lemma NamesAreDistinct(d: DeviceInfo, e: DeviceInfo)
    requires ValidInfo(d) && ValidInfo(e) && ComputeName(d) == ComputeName(e)
    ensures d == e
  {
    NamesAreOrdered(d, e);
    NamesAreOrdered(e, d);
    NeitherBefore(Parts(d), Parts(e), 10);
    forall i | 0 <= i < 10 ensures Parts(d)[i] == Parts(e)[i] {
    }
    assert Parts(d)[0] == Parts(e)[0] && Parts(d)[1] == Parts(e)[1] && Parts(d)[2] == Parts(e)[2];
    assert Parts(d)[3] == Parts(e)[3] && Parts(d)[4] == Parts(e)[4] && Parts(d)[6] == Parts(e)[6];
    assert Parts(d)[7] == Parts(e)[7] && Parts(d)[8] == Parts(e)[8] && Parts(d)[9] == Parts(e)[9];
  }

  /** The fields of an address claim; Go's nil pointers are None. */
  datatype Claim = Claim(
    source: Byte, uniqueNumber: Option<nat>, manufacturerCode: nat, deviceInstanceLower: Option<nat>,
    deviceInstanceUpper: Option<nat>, deviceFunction: nat, deviceClass: nat, systemInstance: Option<nat>,
    industryGroup: nat, arbitraryAddressCapable: nat)

  const YES: nat := 1

  /** buildAddressClaim */
  function BuildAddressClaim(d: DeviceInfo, address: Byte): Claim {
    Claim(address, Some(d.uniqueNumber), d.manufacturerCode, Some(d.deviceInstanceLower), Some(d.deviceInstanceUpper),
          d.deviceFunction, d.deviceClass, Some(d.systemInstance), d.industryGroup,
          if d.arbitraryAddressCapable then 1 else 0)
  }

  function IfPresent(value: Option<nat>, shift: nat): Option<Placed> {
    if value.None? then None else Some(Placed(value.value, shift))
  }

  function IfNotZero(value: nat, shift: nat): Option<Placed> {
    if value == 0 then None else Some(Placed(value, shift))
  }

  /** What computeNameFromClaim ors together. */
  function ClaimFields(claim: Claim): (fields: seq<Option<Placed>>)
    ensures |fields| == 10
  {
    [IfPresent(claim.uniqueNumber, 0), IfNotZero(claim.manufacturerCode, 21),
     IfPresent(claim.deviceInstanceLower, 32), IfPresent(claim.deviceInstanceUpper, 35),
     IfNotZero(claim.deviceFunction, 40), None, IfNotZero(claim.deviceClass, 49),
     IfPresent(claim.systemInstance, 56), IfNotZero(claim.industryGroup, 60),
     if claim.arbitraryAddressCapable == YES then Some(Placed(1, 63)) else None]
  }

  function NameFromClaim(claim: Claim): nat {
    OrPresent(ClaimFields(claim), 10)
  }

  function Amount(value: Option<nat>): nat {
    if value.None? then 0 else value.value
  }

  /** The device a claim describes, if absent fields are zero. */
  function Claimant(claim: Claim): DeviceInfo {
    DeviceInfo(
      Amount(claim.uniqueNumber), claim.manufacturerCode, claim.deviceFunction, claim.deviceClass,
      Amount(claim.deviceInstanceLower), Amount(claim.deviceInstanceUpper), Amount(claim.systemInstance),
      claim.industryGroup, claim.arbitraryAddressCapable == 1)
  }

  /** The NAME that any claim is heard under is the one its fields pack, absent ones being zero. */
  lemma HeardName(claim: Claim)
    requires ValidInfo(Claimant(claim))
    ensures NameFromClaim(claim) == Packed(
              Amount(claim.uniqueNumber), claim.manufacturerCode, Amount(claim.deviceInstanceLower),
              Amount(claim.deviceInstanceUpper), claim.deviceFunction, claim.deviceClass, Amount(claim.systemInstance),
              claim.industryGroup, if claim.arbitraryAddressCapable == 1 then 1 else 0)
  {
    NameLayout(Claimant(claim));
    NameIsSum(Claimant(claim));
    ValidInfoFits(Claimant(claim));
    OrIsSum(ClaimFields(claim), Parts(Claimant(claim)), Shifts(), 10);
  }

  /** A receiver of a node's own claim computes the node's NAME. */
  lemma ClaimCarriesTheName(d: DeviceInfo, address: Byte)
    requires ValidInfo(d)
    ensures ComputeName(d) == Ok(NameFromClaim(BuildAddressClaim(d, address)))
  {
    NameIsSum(d);
    ValidInfoFits(d);
    OrIsSum(ClaimFields(BuildAddressClaim(d, address)), Parts(d), Shifts(), 10);
  }

  /** The fields of a commanded address; the unique number is raw bytes, and there is no arbitrary-address bit. */
  datatype Command = Command(
    uniqueNumber: seq<Byte>, manufacturerCode: nat, deviceInstanceLower: Option<nat>,
    deviceInstanceUpper: Option<nat>, deviceFunction: nat, deviceClass: nat, systemInstance: Option<nat>,
    industryCode: nat)

  function UniqueNumberOf(bytes: seq<Byte>): Option<nat> {
    if |bytes| >= 3 then Some(Or(Or(bytes[0], Shl(bytes[1], 8)), Shl(bytes[2], 16))) else None
  }

  /** What computeNameFromCommand ors together. */
  function CommandFields(cmd: Command): (fields: seq<Option<Placed>>)
    ensures |fields| == 9
  {
    [IfPresent(UniqueNumberOf(cmd.uniqueNumber), 0), IfNotZero(cmd.manufacturerCode, 21),
     IfPresent(cmd.deviceInstanceLower, 32), IfPresent(cmd.deviceInstanceUpper, 35),
     IfNotZero(cmd.deviceFunction, 40), None, IfNotZero(cmd.deviceClass, 49),
     IfPresent(cmd.systemInstance, 56), IfNotZero(cmd.industryCode, 60)]
  }

  function NameFromCommand(cmd: Command): nat {
    OrPresent(CommandFields(cmd), 9)
  }

  function LittleEndian(low: nat, middle: nat, high: nat): nat {
    low + 0x100 * middle + 0x1_0000 * high
  }

  lemma BytePowers()
    ensures Pow2(8) == 0x100 && Pow2(16) == 0x1_0000
  {
    PowersOfTwo();
    PowersMultiply(8, 8);
  }

  lemma OrAbove(low: nat, high: nat, shift: nat, weight: nat)
    requires weight == Pow2(shift) && low < weight
    ensures Or(low, Shl(high, shift)) == low + weight * high
  {
    OrOfDisjoint(high, low, shift);
  }

  /** The number three little-endian bytes make. */
  lemma UniqueNumberIsLittleEndian(bytes: seq<Byte>)
    requires |bytes| == 3
    ensures UniqueNumberOf(bytes) == Some(LittleEndian(bytes[0], bytes[1], bytes[2]))
  {
    BytePowers();
    OrAbove(bytes[0], bytes[1], 8, 0x100);
    OrAbove(LittleEndian(bytes[0], bytes[1], 0), bytes[2], 16, 0x1_0000);
  }

  /** The three bytes that a read of 21 bits returns are those on the wire, less the three high bits. */
  lemma ReadIsMasked(wire: seq<Byte>, read: seq<Byte>)
    requires |wire| == |read| == 3
    requires forall k :: 0 <= k < 24 ==> (StreamBit(read, k) <==> k < 21 && StreamBit(wire, k))
    ensures read == [wire[0], wire[1], wire[2] % 32]
  {
    MaskedByteFits(wire[2], 5);
    SmallPowers();
    var masked := Masked(wire, 5);
    forall k | 0 <= k < 24 ensures StreamBit(read, k) <==> StreamBit(masked, k) {
      MaskedBits(wire, 5, k);
    }
    SameBitsSameBuffer(read, masked);
  }

  /**
    A unique number read as 21 bits is the little-endian number on the wire modulo
    2^21: it leaves the manufacturer bits alone, whatever the bytes.
   */
  lemma CommandedNumberFits(wire: seq<Byte>, read: seq<Byte>)
    requires |wire| == |read| == 3
    requires forall k :: 0 <= k < 24 ==> (StreamBit(read, k) <==> k < 21 && StreamBit(wire, k))
    ensures UniqueNumberOf(read) == Some((wire[0] as int + 0x100 * wire[1] as int + 0x1_0000 * wire[2] as int) % 0x20_0000)
  {
    NumberOfRead(wire, read);
    HighBitsDrop(wire[0], wire[1], wire[2]);
  }

  lemma NumberOfRead(wire: seq<Byte>, read: seq<Byte>)
    requires |wire| == |read| == 3
    requires forall k :: 0 <= k < 24 ==> (StreamBit(read, k) <==> k < 21 && StreamBit(wire, k))
    ensures UniqueNumberOf(read) == Some(LittleEndian(wire[0], wire[1], wire[2] % 32))
  {
    ReadIsMasked(wire, read);
    UniqueNumberIsLittleEndian(read);
  }

  lemma HighBitsDrop(low: Byte, middle: Byte, high: Byte)
    ensures LittleEndian(low, middle, high % 32) ==
              (low as int + 0x100 * middle as int + 0x1_0000 * high as int) % 0x20_0000
  {
    var whole, kept := low as int + 0x100 * middle as int, high as int % 32;
    assert whole + 0x1_0000 * high as int == 0x20_0000 * (high as int / 32) + (whole + 0x1_0000 * kept);
  }

  /** The device a command describes, if absent fields are zero; it cannot carry the arbitrary-address bit. */
  function Commanded(cmd: Command): DeviceInfo {
    DeviceInfo(
      Amount(UniqueNumberOf(cmd.uniqueNumber)), cmd.manufacturerCode, cmd.deviceFunction, cmd.deviceClass,
      Amount(cmd.deviceInstanceLower), Amount(cmd.deviceInstanceUpper), Amount(cmd.systemInstance),
      cmd.industryCode, false)
  }

  /** A NAME without its top bit is the sum of the other parts. */
  lemma NameWithoutTopBit(d: DeviceInfo)
    requires ValidInfo(d)
    ensures Low(ComputeName(d).value, 63) == Sum(Parts(d), Shifts(), 9)
  {
    NameIsSum(d);
    ValidInfoFits(d);
    SumFits(Parts(d), Shifts(), 9);
    DropTop(Sum(Parts(d), Shifts(), 9), Parts(d)[9], 63);
  }

  lemma DropTop(low: nat, high: nat, n: nat)
    requires low < Pow2(n)
    ensures Low(low + high * Pow2(n), n) == low
  {
    var q, r := Divide(low + high * Pow2(n), Pow2(n));
    RemainderIsUnique(high, low, q, r, Pow2(n));
  }

  /** A command names a device exactly when every field it describes is the device's; the arbitrary-address bit is ignored. */
  lemma CommandNamesItsDevice(cmd: Command, e: DeviceInfo)
    requires ValidInfo(Commanded(cmd)) && ValidInfo(e)
    ensures NameFromCommand(cmd) == Low(ComputeName(e).value, 63) <==> Commanded(cmd) == e.(arbitraryAddressCapable := false)
  {
    var plain, other := Commanded(cmd), e.(arbitraryAddressCapable := false);
    CommandIsSum(cmd);
    NameWithoutTopBit(e);
    SameLowParts(e, other, 9);
    PlainName(plain);
    PlainName(other);
    if ComputeName(plain) == ComputeName(other) { NamesAreDistinct(plain, other); }
  }

  lemma {:induction false} SameLowParts(d: DeviceInfo, e: DeviceInfo, n: nat)
    requires d.(arbitraryAddressCapable := false) == e.(arbitraryAddressCapable := false) && n <= 9
    ensures Sum(Parts(d), Shifts(), n) == Sum(Parts(e), Shifts(), n)
  {
    if n > 0 { SameLowParts(d, e, n - 1); }
  }

  lemma PlainName(d: DeviceInfo)
    requires ValidInfo(d) && !d.arbitraryAddressCapable
    ensures ComputeName(d) == Ok(Sum(Parts(d), Shifts(), 9))
  {
    NameIsSum(d);
  }

  lemma CommandSpellsParts(cmd: Command, i: nat)
    requires i < 9
    ensures var field, parts := CommandFields(cmd)[i], Parts(Commanded(cmd));
            field == Some(Placed(parts[i], Shifts()[i])) || (field == None && parts[i] == 0)
  {
  }

  lemma CommandIsSum(cmd: Command)
    requires ValidInfo(Commanded(cmd))
    ensures NameFromCommand(cmd) == Sum(Parts(Commanded(cmd)), Shifts(), 9)
  {
    var parts := Parts(Commanded(cmd));
    ValidInfoFits(Commanded(cmd));
    forall i | 0 <= i < 9
      ensures var field := CommandFields(cmd)[i];
              field == Some(Placed(parts[..9][i], Shifts()[i])) || (field == None && parts[..9][i] == 0)
    {
      CommandSpellsParts(cmd, i);
    }
    PrefixFits(parts, Shifts(), 9);
    OrIsSum(CommandFields(cmd), parts[..9], Shifts(), 9);
    SumOfPrefix(parts, Shifts(), 9, 9);
  }

  lemma PrefixFits(parts: seq<nat>, shifts: seq<nat>, cut: nat)
    requires Fit(parts, shifts) && cut <= |parts|
    ensures Fit(parts[..cut], shifts)
  {
  }

  lemma {:induction false} SumOfPrefix(parts: seq<nat>, shifts: seq<nat>, cut: nat, n: nat)
    requires n <= cut <= |parts| <= |shifts|
    ensures Sum(parts[..cut], shifts, n) == Sum(parts, shifts, n)
  {
    if n > 0 { SumOfPrefix(parts, shifts, cut, n - 1); }
  }

  lemma CommandFitsAName(cmd: Command)
    requires ValidInfo(Commanded(cmd))
    ensures NameFromCommand(cmd) < 0x8000_0000_0000_0000
  {
    CommandIsSum(cmd);
    ValidInfoFits(Commanded(cmd));
    SumFits(Parts(Commanded(cmd)), Shifts(), 9);
    Weights();
  }

  /**
    A received command moves exactly the writing node whose device information it
    describes, and leaves every other one as it is.
   */
  lemma CommandMovesItsDevice(node: NodeModel.NodeState, e: DeviceInfo, cmd: Command, newAddress: DeviceIndex.Address)
    requires NodeModel.Settled(node) && node.started && newAddress <= 253
    requires ValidInfo(e) && ComputeName(e) == Ok(node.name) && ValidInfo(Commanded(cmd))
    ensures NameFromCommand(cmd) < 0x8000_0000_0000_0000
    ensures var event := NodeModel.Receive(NodeModel.CommandedAddress(NameFromCommand(cmd), Some(newAddress)));
            var after := NodeModel.Step(node, event).node;
            if !node.readOnly && Commanded(cmd) == e.(arbitraryAddressCapable := false)
            then after.address == newAddress && after.state == NodeModel.Claiming
            else after == node
  {
    Weights();
    CommandFitsAName(cmd);
    CommandNamesItsDevice(cmd, e);
    NodeModel.ObeyingACommand(node, NameFromCommand(cmd), newAddress);
  }
}
