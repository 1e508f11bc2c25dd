/** The group functions that write and read the fields of a node's configuration information. */
module ConfigFields {
  import opened Bits
  import opened DeviceIndex
  import opened Node
  import opened NodeModel
  import opened StringLau
  import opened Wrappers

  /** One requested parameter; a write carries the raw bytes of its new value. */
  datatype FieldWrite = FieldWrite(parameter: Option<Byte>, value: seq<Byte>)

  datatype NakReason = InvalidParameter | AccessDenied | NotSupported

  datatype Reply =
    | FieldsReply(source: Address, destination: Address, fields: seq<FieldWrite>)
    | GroupNak(source: Address, destination: Address, reason: NakReason)

  /** Who asks, whom, for which PGN, and how many selection pairs come along. */
  datatype Request = Request(source: Address, target: Address, pgn: Option<nat>, selections: nat, fields: seq<FieldWrite>)

  /** The application's store; its accessors may fail. */
  class Provider {
    var info: ConfigInfo
    var readable: bool
    var writable: bool

    constructor (initial: ConfigInfo)
      ensures info == initial && readable && writable
    {
      info, readable, writable := initial, true, true;
    }

    method GetConfigurationInfo() returns (result: Result<ConfigInfo>)
      ensures result == if readable then Ok(info) else Err
    {
      if !readable {
        return Err;
      }
      return Ok(info);
    }

    method SetConfigurationInfo(next: ConfigInfo) returns (ok: bool)
      modifies this`info
      ensures ok == writable && info == if ok then next else old(info)
    {
      if writable {
        info := next;
      }
      return writable;
    }
  }

  /** One parameter set to a decoded value; there are three parameters. */
  function WithParameter(info: ConfigInfo, parameter: Byte, text: Text): Result<ConfigInfo> {
    match parameter
    case 1 => Ok(info.(installationDescription1 := text))
    case 2 => Ok(info.(installationDescription2 := text))
    case 3 => Ok(info.(manufacturerInformation := text))
    case _ => Err
  }

  function Parameter(info: ConfigInfo, parameter: Byte): Option<Text> {
    match parameter
    case 1 => Some(info.installationDescription1)
    case 2 => Some(info.installationDescription2)
    case 3 => Some(info.manufacturerInformation)
    case _ => None
  }

  /** One field of a write request, applied to a copy of the configuration. */
  function WriteOne(info: ConfigInfo, field: FieldWrite): Result<ConfigInfo> {
    if field.parameter.None? then Ok(info)
    else if Decoded(field.value) == Err then Err
    else WithParameter(info, field.parameter.value, Decoded(field.value).value)
  }

  /** The first n fields of a write request. */
  function WriteAll(info: ConfigInfo, fields: seq<FieldWrite>, n: nat): Result<ConfigInfo>
    requires n <= |fields|
  {
    if n == 0 then Ok(info)
    else
      var before := WriteAll(info, fields, n - 1);
      if before == Err then Err else WriteOne(before.value, fields[n - 1])
  }

  /** A field that can be written: absent, or one of the three parameters with a decodable value. */
  predicate Writable(field: FieldWrite) {
    field.parameter.Some? ==> 1 <= field.parameter.value <= 3 && Decoded(field.value).Ok?
  }

  /** A request is applied exactly when every single field can be written. */
  lemma {:induction false} AllOrNothing(info: ConfigInfo, fields: seq<FieldWrite>, n: nat)
    requires n <= |fields|
    ensures WriteAll(info, fields, n).Ok? <==> forall i :: 0 <= i < n ==> Writable(fields[i])
  {
    if n > 0 { AllOrNothing(info, fields, n - 1); }
  }

  /** The value of the last field for a parameter among the first n. */
  function LastWritten(fields: seq<FieldWrite>, n: nat, parameter: Byte): Option<seq<Byte>>
    requires n <= |fields|
  {
    if n == 0 then None
    else if fields[n - 1].parameter == Some(parameter) then Some(fields[n - 1].value)
    else LastWritten(fields, n - 1, parameter)
  }

  /** The three parameters by name. */
  lemma ParametersByName(info: ConfigInfo)
    ensures Parameter(info, 1) == Some(info.installationDescription1)
    ensures Parameter(info, 2) == Some(info.installationDescription2)
    ensures Parameter(info, 3) == Some(info.manufacturerInformation)
  {
  }

  /** Each parameter ends up with its last written value, decoded, and the others keep theirs. */
  lemma {:induction false} LastWriteWins(info: ConfigInfo, fields: seq<FieldWrite>, n: nat, parameter: Byte)
    requires n <= |fields| && WriteAll(info, fields, n).Ok? && 1 <= parameter <= 3
    ensures var last := LastWritten(fields, n, parameter);
            if last.Some? then Decoded(last.value) == Ok(Parameter(WriteAll(info, fields, n).value, parameter).value)
            else Parameter(WriteAll(info, fields, n).value, parameter) == Parameter(info, parameter)
  {
    if n > 0 { LastWriteWins(info, fields, n - 1, parameter); }
  }

  /** The fields of a reply to a write: those with a parameter, as they came. */
  function Echo(fields: seq<FieldWrite>, n: nat): seq<FieldWrite>
    requires n <= |fields|
  {
    if n == 0 then [] else Echo(fields, n - 1) + if fields[n - 1].parameter.Some? then [fields[n - 1]] else []
  }

  /** If every field names a parameter, the reply to a write repeats them all, in order. */
  lemma {:induction false} EchoRepeats(fields: seq<FieldWrite>, n: nat)
    requires n <= |fields| && forall i :: 0 <= i < n ==> fields[i].parameter.Some?
    ensures Echo(fields, n) == fields[..n]
  {
    if n > 0 {
      EchoRepeats(fields, n - 1);
      assert fields[..n] == fields[..n - 1] + [fields[n - 1]];
    }
  }

  /** What a read request collects; none when it names an unknown parameter. */
  datatype ReadResult = Unknown | TooLong | Values(fields: seq<FieldWrite>)

  /** The first n fields of a read request. */
  function ReadAll(info: ConfigInfo, fields: seq<FieldWrite>, n: nat): ReadResult
    requires n <= |fields|
  {
    if n == 0 then Values([])
    else
      var before := ReadAll(info, fields, n - 1);
      var parameter := fields[n - 1].parameter;
      if !before.Values? || parameter.None? then before
      else if Parameter(info, parameter.value).None? then Unknown
      else if Encoded(Parameter(info, parameter.value).value) == Err then TooLong
      else Values(before.fields + [FieldWrite(parameter, Encoded(Parameter(info, parameter.value).value).value)])
  }

  /** A field that can be read: one of the three parameters, with a text that a field can hold. */
  predicate Readable(info: ConfigInfo, field: FieldWrite) {
    field.parameter.Some? && 1 <= field.parameter.value <= 3 && |Parameter(info, field.parameter.value).value| <= 253
  }

  /**
    If every field names a parameter, a read returns one field for each, in order,
    with the parameter's text; it fails at the first one that cannot be read.
   */
  lemma {:induction false} ReadsInOrder(info: ConfigInfo, fields: seq<FieldWrite>, n: nat)
    requires n <= |fields| && forall i :: 0 <= i < n ==> fields[i].parameter.Some?
    ensures var read := ReadAll(info, fields, n);
            && (read.Values? <==> forall i :: 0 <= i < n ==> Readable(info, fields[i]))
            && (read == Unknown <==>
                  exists i :: 0 <= i < n && !(1 <= fields[i].parameter.value <= 3)
                    && forall j :: 0 <= j < i ==> Readable(info, fields[j]))
            && (read.Values? ==>
                  |read.fields| == n
                  && forall i :: 0 <= i < n ==>
                       && read.fields[i].parameter == fields[i].parameter
                       && var text := Parameter(info, fields[i].parameter.value).value;
                          read.fields[i].value == [|text| + 2, 1] + text)
  {
    if n > 0 { ReadsInOrder(info, fields, n - 1); }
  }

  lemma {:induction false} PrefixDecides(info: ConfigInfo, fields: seq<FieldWrite>, other: seq<FieldWrite>, n: nat)
    requires n <= |fields| && n <= |other| && fields[..n] == other[..n]
    ensures ReadAll(info, fields, n) == ReadAll(info, other, n) && Echo(fields, n) == Echo(other, n)
    ensures WriteAll(info, fields, n) == WriteAll(info, other, n)
  {
    if n > 0 {
      assert fields[n - 1] == fields[..n][n - 1] && other[n - 1] == other[..n][n - 1];
      assert fields[..n - 1] == fields[..n][..n - 1] && other[..n - 1] == other[..n][..n - 1];
      PrefixDecides(info, fields, other, n - 1);
    }
  }

  /** A field without a parameter might as well not be there. */
  lemma {:induction false} AbsentFieldsAreSkipped(info: ConfigInfo, fields: seq<FieldWrite>, i: nat, n: nat)
    requires i < n <= |fields| && fields[i].parameter == None
    ensures var without := fields[..i] + fields[i + 1..];
            && ReadAll(info, without, n - 1) == ReadAll(info, fields, n) && Echo(without, n - 1) == Echo(fields, n)
            && WriteAll(info, without, n - 1) == WriteAll(info, fields, n)
    decreases n
  {
    var without := fields[..i] + fields[i + 1..];
    if n == i + 1 {
      PrefixDecides(info, fields, without, i);
    } else {
      AbsentFieldsAreSkipped(info, fields, i, n - 1);
      assert without[n - 2] == fields[n - 1];
    }
  }

  /** Every value a read returns is the canonical encoding of the parameter's text. */
  lemma {:induction false} ReadsAreCanonical(info: ConfigInfo, fields: seq<FieldWrite>, n: nat, i: nat)
    requires n <= |fields| && ReadAll(info, fields, n).Values? && i < |ReadAll(info, fields, n).fields|
    ensures var field := ReadAll(info, fields, n).fields[i];
            && field.parameter.Some? && Parameter(info, field.parameter.value).Some?
            && Encoded(Parameter(info, field.parameter.value).value) == Ok(field.value)
  {
    if n > 0 {
      var before := ReadAll(info, fields, n - 1);
      if i < |before.fields| { ReadsAreCanonical(info, fields, n - 1, i); }
    }
  }

  /**
    A parameter written and then read on its own comes back as the canonical
    encoding of the text that was written last, if that has at most 253 bytes.
   */
  lemma WrittenIsReadBack(info: ConfigInfo, fields: seq<FieldWrite>, parameter: Byte, text: Text)
    requires 1 <= parameter <= 3 && WriteAll(info, fields, |fields|).Ok?
    requires var last := LastWritten(fields, |fields|, parameter); last.Some? && Decoded(last.value) == Ok(text)
    ensures var after := WriteAll(info, fields, |fields|).value;
            ReadAll(after, [FieldWrite(Some(parameter), [])], 1) ==
              if |text| > MAX_TEXT_BYTES then TooLong
              else Values([FieldWrite(Some(parameter), Encoded(text).value)])
  {
    LastWriteWins(info, fields, |fields|, parameter);
    var after := WriteAll(info, fields, |fields|).value;
    assert ReadAll(after, [FieldWrite(Some(parameter), [])], 0) == Values([]);
  }

  /** A value that decodes to too long a text is accepted by a write, and the parameter cannot be read any more. */
  lemma LongTextIsAccepted(info: ConfigInfo, parameter: Byte, value: seq<Byte>)
    requires 1 <= parameter <= 3 && Decoded(value).Ok? && |Decoded(value).value| > MAX_TEXT_BYTES
    ensures var fields := [FieldWrite(Some(parameter), value)];
            && WriteAll(info, fields, 1).Ok?
            && ReadAll(WriteAll(info, fields, 1).value, [FieldWrite(Some(parameter), [])], 1) == TooLong
  {
    var fields := [FieldWrite(Some(parameter), value)];
    AllOrNothing(info, fields, 1);
    assert LastWritten(fields, 1, parameter) == Some(value);
    WrittenIsReadBack(info, fields, parameter, Decoded(value).value);
  }

  /** One fast packet can carry such a value. */
  lemma AcceptedButTooLong(info: ConfigInfo, parameter: Byte)
    requires 1 <= parameter <= 3
    ensures exists value ::
              && |value| == 172
              && var fields := [FieldWrite(Some(parameter), value)];
                 WriteAll(info, fields, 1).Ok?
                 && ReadAll(WriteAll(info, fields, 1).value, [FieldWrite(Some(parameter), [])], 1) == TooLong
  {
    LongTextInAField();
    LongTextIsAccepted(info, parameter, Utf16Field(Quads(85)));
  }

  /** processUnsupportedGroupFunction */
  function Refuse(readOnly: bool, claimed: bool, address: Address, request: Request, reason: NakReason): seq<Reply> {
    if readOnly || !claimed then []
    else if request.target != 255 && request.target != address then []
    else if request.target == 255 then []
    else [GroupNak(address, request.source, reason)]
  }

  /** A refusal goes to the asker, and only to one that addressed this node and no other. */
  lemma RefusalsAreDirected(readOnly: bool, claimed: bool, address: Address, request: Request, reason: NakReason)
    ensures Refuse(readOnly, claimed, address, request, reason) ==
              if claimed && !readOnly && request.target == address && address != 255
              then [GroupNak(address, request.source, reason)] else []
  {
  }

  /** decodeGroupFunctionLAU */
  method DecodeField(value: seq<Byte>) returns (result: Result<Text>)
    requires |value| < 0x1_0000
    ensures result == Decoded(value)
  {
    var data := new Byte[|value|](i requires 0 <= i < |value| => value[i]);
    assert data[..] == value;
    result := DecodeStringLau(data);
  }

  /** processNmeaWriteFieldsGroupFunction: either the whole request reaches the provider or nothing of it. */
  method ProcessWriteFields(node: Node, provider: Provider?, request: Request) returns (replies: seq<Reply>)
    requires forall i :: 0 <= i < |request.fields| ==> |request.fields[i].value| < 0x1_0000
    modifies provider
    ensures provider != null ==>
              var written := WriteAll(old(provider.info), request.fields, |request.fields|);
              provider.info ==
                if request.pgn == Some(126998) && node.addressClaimed && !node.readOnly
                   && request.target == node.networkAddress && request.selections == 0
                   && old(provider.readable) && old(provider.writable) && written.Ok?
                then written.value else old(provider.info)
    ensures replies != [] ==>
              && node.addressClaimed && !node.readOnly && request.target == node.networkAddress
              && |replies| == 1 && replies[0].source == node.networkAddress && replies[0].destination == request.source
              && (Settled(node.State()) ==> request.target <= 253)
    ensures request.pgn == None ==> replies == []
    ensures request.pgn.Some? && request.pgn != Some(126998) ==>
              replies == Refuse(node.readOnly, node.addressClaimed, node.networkAddress, request, NotSupported)
    ensures request.pgn == Some(126998) ==>
              replies ==
                if provider == null || node.readOnly || !node.addressClaimed
                   || request.target != node.networkAddress || request.selections != 0 then []
                else if !old(provider.readable) then
                  Refuse(node.readOnly, node.addressClaimed, node.networkAddress, request, AccessDenied)
                else if WriteAll(old(provider.info), request.fields, |request.fields|) == Err then
                  Refuse(node.readOnly, node.addressClaimed, node.networkAddress, request, InvalidParameter)
                else if !old(provider.writable) then
                  Refuse(node.readOnly, node.addressClaimed, node.networkAddress, request, AccessDenied)
                else [FieldsReply(node.networkAddress, request.source, Echo(request.fields, |request.fields|))]
  {
    if request.pgn == None {
      return [];
    }
    if request.pgn != Some(CONFIGURATION_INFORMATION_PGN) {
      return Refuse(node.readOnly, node.addressClaimed, node.networkAddress, request, NotSupported);
    }
    if node.readOnly || !node.addressClaimed || provider == null || request.target != node.networkAddress
       || request.selections != 0 {
      return [];
    }
    var read := provider.GetConfigurationInfo();
    if read == Err {
      return Refuse(node.readOnly, node.addressClaimed, node.networkAddress, request, AccessDenied);
    }
    var collected := CollectWrites(read.value, request.fields);
    if collected == Err {
      return Refuse(node.readOnly, node.addressClaimed, node.networkAddress, request, InvalidParameter);
    }
    var ok := provider.SetConfigurationInfo(collected.value.0);
    if !ok {
      return Refuse(node.readOnly, node.addressClaimed, node.networkAddress, request, AccessDenied);
    }
    return [FieldsReply(node.networkAddress, request.source, collected.value.1)];
  }

  lemma {:induction false} ErrorsStay(info: ConfigInfo, fields: seq<FieldWrite>, n: nat, m: nat)
    requires n <= m <= |fields| && WriteAll(info, fields, n) == Err
    ensures WriteAll(info, fields, m) == Err
    decreases m
  {
    if n < m { ErrorsStay(info, fields, n, m - 1); }
  }

  /** The loop over the fields of a write request, on a copy of the configuration. */
  method CollectWrites(start: ConfigInfo, fields: seq<FieldWrite>) returns (result: Result<(ConfigInfo, seq<FieldWrite>)>)
    requires forall i :: 0 <= i < |fields| ==> |fields[i].value| < 0x1_0000
    ensures result == if WriteAll(start, fields, |fields|) == Err then Err
                      else Ok((WriteAll(start, fields, |fields|).value, Echo(fields, |fields|)))
  {
    var info := start;
    var replyFields: seq<FieldWrite> := [];
    for i := 0 to |fields|
      invariant WriteAll(start, fields, i) == Ok(info) && replyFields == Echo(fields, i)
    {
      var field := fields[i];
      if field.parameter.None? {
        continue;
      }
      var decoded := DecodeField(field.value);
      if decoded == Err {
        ErrorsStay(start, fields, i + 1, |fields|);
        return Err;
      }
      match field.parameter.value {
        case 1 => info := info.(installationDescription1 := decoded.value);
        case 2 => info := info.(installationDescription2 := decoded.value);
        case 3 => info := info.(manufacturerInformation := decoded.value);
        case _ =>
          ErrorsStay(start, fields, i + 1, |fields|);
          return Err;
      }
      replyFields := replyFields + [field];
    }
    return Ok((info, replyFields));
  }

  /** processNmeaReadFieldsGroupFunction */
  method ProcessReadFields(node: Node, provider: Provider?, request: Request) returns (replies: seq<Reply>)
    ensures replies != [] ==>
              && node.addressClaimed && !node.readOnly && request.target == node.networkAddress
              && request.pgn == Some(126998) && request.selections == 0
              && |replies| == 1 && replies[0].source == node.networkAddress && replies[0].destination == request.source
              && (Settled(node.State()) ==> request.target <= 253)
    ensures replies ==
              if request.pgn != Some(126998) || provider == null || node.readOnly || !node.addressClaimed
                 || request.target != node.networkAddress || request.selections != 0 then []
              else if !provider.readable then []
              else match ReadAll(provider.info, request.fields, |request.fields|)
                   case Unknown => []
                   case TooLong =>
                     Refuse(node.readOnly, node.addressClaimed, node.networkAddress, request, InvalidParameter)
                   case Values(fields) => [FieldsReply(node.networkAddress, request.source, fields)]
  {
    if request.pgn != Some(CONFIGURATION_INFORMATION_PGN) {
      return [];
    }
    if node.readOnly || !node.addressClaimed || provider == null || request.target != node.networkAddress
       || request.selections != 0 {
      return [];
    }
    var read := provider.GetConfigurationInfo();
    if read == Err {
      return [];
    }
    var values: map<Byte, Text> :=
      map[1 := read.value.installationDescription1, 2 := read.value.installationDescription2, 3 := read.value.manufacturerInformation];
    var fields: seq<FieldWrite> := [];
    for i := 0 to |request.fields|
      invariant ReadAll(read.value, request.fields, i) == Values(fields)
    {
      var parameter := request.fields[i].parameter;
      if parameter.None? {
        continue;
      }
      if parameter.value !in values {
        ReadEnds(read.value, request.fields, i + 1, |request.fields|);
        return [];
      }
      var encoded := EncodeStringLau(values[parameter.value]);
      if encoded == Err {
        ReadEnds(read.value, request.fields, i + 1, |request.fields|);
        return Refuse(node.readOnly, node.addressClaimed, node.networkAddress, request, InvalidParameter);
      }
      fields := fields + [FieldWrite(parameter, encoded.value)];
    }
    return [FieldsReply(node.networkAddress, request.source, fields)];
  }

  lemma {:induction false} ReadEnds(info: ConfigInfo, fields: seq<FieldWrite>, n: nat, m: nat)
    requires n <= m <= |fields| && !ReadAll(info, fields, n).Values?
    ensures ReadAll(info, fields, m) == ReadAll(info, fields, n)
    decreases m
  {
    if n < m { ReadEnds(info, fields, n, m - 1); }
  }
}
