/** The 29-bit CAN identifier: priority, PGN and source, with the target inside addressed PGNs. */
module CanId {
  import opened Bits

  datatype MessageInfo = MessageInfo(pgn: nat, source: Byte, target: Byte, priority: Byte)

  /** Addressed PGNs (PDU1) have a format byte below 240 and carry their target in the low byte. */
  const FIRST_GLOBAL_FORMAT: nat := 240
  const GLOBAL_TARGET: Byte := 255

  /** uint8((pgn & 0xFF00) >> 8) */
  function PduFormat(pgn: nat): nat {
    Low(Shr(And(pgn, 0xFF00), 8), 8)
  }

  predicate Addressed(pgn: nat) {
    PduFormat(pgn) < FIRST_GLOBAL_FORMAT
  }

  /** low | uint32(field) << shift */
  function Stack(low: nat, field: nat, shift: nat): nat {
    Or(low, Low(Shl(field, shift), 32))
  }

  /** CanIDFromData, in 32-bit arithmetic. */
  function Encode(info: MessageInfo): nat {
    var pgn := if Addressed(info.pgn) then Or(And(info.pgn, 0xFFF00), info.target) else info.pgn;
    Or(Stack(Stack(info.source, pgn, 8), info.priority, 26), 0x8000_0000)
  }

  /** DecodeCanID, before the target is taken out of the PGN. */
  function SourceOf(id: nat): nat { And(id, 0xFF) }
  function PgnFieldOf(id: nat): nat { Shr(And(id, 0x3FFFF00), 8) }
  function PriorityOf(id: nat): nat { Shr(And(id, 0x1C000000), 26) }

  lemma DecodedFields(id: nat)
    ensures SourceOf(id) == id % 256
    ensures PgnFieldOf(id) == id / 256 % 0x4_0000
    ensures PriorityOf(id) == id / 0x400_0000 % 8
  {
    PowersOfTwo();
    MaskIsLow(id, 8);
    MaskedField(id, 8, 18);
    MaskedField(id, 26, 3);
  }

  lemma PgnFields(pgn: nat)
    ensures PduFormat(pgn) == pgn / 256 % 256
    ensures And(pgn, 0xFFF00) == pgn / 256 % 0x1000 * 256
    ensures And(pgn, 0xFF) == pgn % 256
  {
    PowersOfTwo();
    MaskedField(pgn, 8, 8);
    MaskedField(pgn, 8, 12);
    MaskIsLow(pgn, 8);
  }

  function Decode(id: nat): (info: MessageInfo)
  {
    DecodedFields(id);
    PgnFields(PgnFieldOf(id));
    if Addressed(PgnFieldOf(id))
    then MessageInfo(And(PgnFieldOf(id), 0xFFF00), SourceOf(id), And(PgnFieldOf(id), 0xFF), PriorityOf(id))
    else MessageInfo(PgnFieldOf(id), SourceOf(id), GLOBAL_TARGET, PriorityOf(id))
  }

  /** A PGN that fits its 18 bits and leaves room for the target if it is addressed. */
  predicate ProperInfo(info: MessageInfo) {
    && 0 < info.pgn < 0x4_0000 && info.priority < 8
    && (Addressed(info.pgn) ==> info.pgn % 256 == 0)
  }

  /** The PGN field with the target of an addressed message in its low byte. */
  function WirePgn(info: MessageInfo): nat {
    if Addressed(info.pgn) then info.pgn + info.target else info.pgn
  }

  lemma WholePages(pgn: nat)
    requires pgn < 0x4_0000 && pgn % 256 == 0
    ensures pgn / 256 % 0x1000 * 256 == pgn == pgn / 256 * 256
  {
  }

  lemma LowByteIsFree(pgn: nat)
    requires pgn < 0x4_0000 && pgn % 256 == 0
    ensures And(pgn, 0xFFF00) == pgn == pgn / 256 * 256
  {
    PgnFields(pgn);
    WholePages(pgn);
  }

  lemma ByteBelow(high: nat, low: Byte)
    ensures Or(high * 256, low) == Or(low, high * 256) == high * 256 + low
  {
    OrOfDisjoint(high, low, 8);
  }

  /** uint32(high) << shift | low, for fields that do not overlap and fit. */
  lemma StackField(high: nat, low: nat, shift: nat, weight: nat)
    requires weight == Pow2(shift) && low < weight && high * weight < Pow2(32)
    ensures Stack(low, high, shift) == high * weight + low
  {
    LowFits(Shl(high, shift), 32);
    OrOfDisjoint(high, low, shift);
  }

  lemma StackPgn(pgn: nat, source: Byte)
    requires pgn < 0x4_0000
    ensures Stack(source, pgn, 8) == pgn * 256 + source
  {
    PowersOfTwo();
    StackField(pgn, source, 8, 256);
  }

  lemma StackPriority(priority: nat, low: nat)
    requires priority < 8 && low < 0x400_0000
    ensures Stack(low, priority, 26) == priority * 0x400_0000 + low
  {
    PowersOfTwo();
    StackField(priority, low, 26, 0x400_0000);
  }

  lemma StackExtendedFlag(low: nat)
    requires low < 0x8000_0000
    ensures Or(low, 0x8000_0000) == 0x8000_0000 + low
  {
    PowersOfTwo();
    OrOfDisjoint(1, low, 31);
  }

  lemma WirePgnIsEncoded(info: MessageInfo)
    requires ProperInfo(info)
    ensures (if Addressed(info.pgn) then Or(And(info.pgn, 0xFFF00), info.target) else info.pgn) == WirePgn(info)
    ensures WirePgn(info) < 0x4_0000
  {
    if Addressed(info.pgn) {
      LowByteIsFree(info.pgn);
      ByteBelow(info.pgn / 256, info.target);
    }
  }

  lemma StackedFields(pgn: nat, source: Byte, priority: nat)
    requires pgn < 0x4_0000 && priority < 8
    ensures Or(Stack(Stack(source, pgn, 8), priority, 26), 0x8000_0000)
            == 0x8000_0000 + priority * 0x400_0000 + pgn * 256 + source
  {
    var low := pgn * 256 + source;
    StackPgn(pgn, source);
    StackPriority(priority, low);
    StackExtendedFlag(priority * 0x400_0000 + low);
  }

  /** The identifier of a proper message is the sum of its disjoint fields. */
  lemma EncodedFields(info: MessageInfo)
    requires ProperInfo(info)
    ensures WirePgn(info) == (if info.pgn / 256 % 256 < 240 then info.pgn + info.target else info.pgn) < 0x4_0000
    ensures Encode(info) == 0x8000_0000 + info.priority * 0x400_0000 + WirePgn(info) * 256 + info.source
  {
    PgnFields(info.pgn);
    WirePgnIsEncoded(info);
    StackedFields(WirePgn(info), info.source, info.priority);
  }

  lemma SplitSum(priority: nat, pgn: nat, source: nat)
    requires priority < 8 && pgn < 0x4_0000 && source < 256
    ensures var id := 0x8000_0000 + priority * 0x400_0000 + pgn * 256 + source;
            id % 256 == source && id / 256 % 0x4_0000 == pgn && id / 0x400_0000 % 8 == priority
  {
    var id := 0x8000_0000 + priority * 0x400_0000 + pgn * 256 + source;
    assert id == (0x80_0000 + priority * 0x4_0000 + pgn) * 256 + source;
    assert id / 256 == (32 + priority) * 0x4_0000 + pgn;
    assert id / 0x400_0000 == 32 + priority;
  }

  /** What any identifier decodes to. */
  lemma DecodedArithmetic(id: nat)
    ensures var pgn := id / 256 % 0x4_0000;
            Decode(id) ==
              if pgn / 256 % 256 < 240
              then MessageInfo(pgn / 256 % 0x1000 * 256, id % 256, pgn % 256, id / 0x400_0000 % 8)
              else MessageInfo(pgn, id % 256, 255, id / 0x400_0000 % 8)
  {
    DecodedFields(id);
    PgnFields(PgnFieldOf(id));
  }

  lemma TargetSplits(pgn: nat, target: Byte)
    requires pgn < 0x4_0000 && pgn % 256 == 0
    ensures (pgn + target) % 256 == target && (pgn + target) / 256 == pgn / 256
  {
  }

  lemma SumDecodes(id: nat, info: MessageInfo, pgn: nat)
    requires 0 < info.pgn < 0x4_0000 && info.priority < 8 && pgn < 0x4_0000
    requires id == 0x8000_0000 + info.priority * 0x400_0000 + pgn * 256 + info.source
    requires pgn == if info.pgn / 256 % 256 < FIRST_GLOBAL_FORMAT then info.pgn + info.target else info.pgn
    requires info.pgn / 256 % 256 < FIRST_GLOBAL_FORMAT ==> info.pgn % 256 == 0
    ensures Decode(id) ==
              info.(target := if info.pgn / 256 % 256 < FIRST_GLOBAL_FORMAT then info.target else GLOBAL_TARGET)
  {
    SplitSum(info.priority, pgn, info.source);
    DecodedArithmetic(id);
    if info.pgn / 256 % 256 < FIRST_GLOBAL_FORMAT {
      TargetSplits(info.pgn, info.target);
      WholePages(info.pgn);
    }
  }

  /** Decoding the identifier of a message gives its PGN, source, priority and target back; global PGNs target everybody. */
  lemma IdRoundTrip(info: MessageInfo)
    requires ProperInfo(info)
    ensures Decode(Encode(info)) == info.(target := if info.pgn / 256 % 256 < 240 then info.target else 255)
  {
    EncodedFields(info);
    PgnFields(info.pgn);
    SumDecodes(Encode(info), info, WirePgn(info));
  }
}
