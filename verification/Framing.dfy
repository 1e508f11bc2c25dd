/** Cutting messages into frames, and what a receiver makes of the frames. */
module Framing {
  import opened Bits
  import opened CanId
  import opened FastBits
  import opened FastPacket
  import opened Reassembly
  import opened Wrappers

  const PADDING: Byte := 0xFF
  const SEQUENCE_IDS: nat := 7

  datatype CanFrame = CanFrame(id: nat, length: nat, data: Data)

  /** A packet handed to the handler. */
  datatype Delivery = Delivery(info: MessageInfo, data: seq<Byte>, faulty: bool)

  /** The continuation frames in the order a sender emits them. */
  function InOrder(count: nat): (order: seq<nat>)
    ensures |order| == count && forall k :: 0 <= k < count ==> order[k] == k + 1
  {
    if count == 0 then [] else InOrder(count - 1) + [count]
  }

  lemma InOrderIsOrder(count: nat)
    ensures IsOrder(InOrder(count), count)
  {
    forall i | 1 <= i <= count ensures i in InOrder(count) {
      assert InOrder(count)[i - 1] == i;
    }
  }

  /** The data of all frames of a fast message, as sent. */
  function FastData(payload: seq<Byte>, seqId: nat, pad: Byte): (frames: seq<Data>)
    requires |payload| <= MAX_PAYLOAD && seqId < 8
    ensures |frames| == 1 + ContinuationCount(|payload|)
    ensures forall i :: 0 <= i < |frames| ==> frames[i] == Frame(payload, seqId, pad, i)
  {
    MessageFrames(payload, seqId, pad, InOrder(ContinuationCount(|payload|)))
  }

  /** The frames of a message, received in the order they were sent, deliver it. */
  lemma FastDataDelivers(s: SeqState, payload: seq<Byte>, seqId: nat, pad: Byte)
    requires Consistent(s) && |payload| <= MAX_PAYLOAD && seqId < 8
    ensures FeedAll(s, FastData(payload, seqId, pad)).1 == [payload]
  {
    InOrderIsOrder(ContinuationCount(|payload|));
    WholeMessageDelivers(s, payload, seqId, pad, InOrder(ContinuationCount(|payload|)));
  }

  /** What follows the header of a frame. */
  function Body(frame: Data, i: nat): seq<Byte> {
    if i == 0 then frame[2..] else frame[1..]
  }

  /** The bodies of the first n frames, joined. */
  function Bodies(frames: seq<Data>, n: nat): seq<Byte>
    requires n <= |frames|
  {
    if n == 0 then [] else Bodies(frames, n - 1) + Body(frames[n - 1], n - 1)
  }

  lemma BodyIsChunk(payload: seq<Byte>, seqId: nat, pad: Byte, i: nat)
    requires |payload| <= MAX_PAYLOAD && seqId < 8 && i <= MAX_FRAME_NUM
    ensures Body(Frame(payload, seqId, pad, i), i) == Chunk(payload, pad, i)
  {
  }

  lemma {:induction false} PaddedJoins(payload: seq<Byte>, pad: Byte, start: nat, m: nat, n: nat)
    ensures Padded(payload, pad, start, m) + Padded(payload, pad, start + m, n) == Padded(payload, pad, start, m + n)
  {
    if n > 0 {
      PaddedJoins(payload, pad, start, m, n - 1);
    }
  }

  lemma BodyExtends(payload: seq<Byte>, pad: Byte, start: nat, n: nat, before: seq<Byte>, body: seq<Byte>)
    requires before == Padded(payload, pad, 0, start) && body == Padded(payload, pad, start, n)
    ensures before + body == Padded(payload, pad, 0, start + n)
  {
    PaddedJoins(payload, pad, 0, start, n);
  }

  lemma NextChunkStart(n: nat)
    requires n > 0
    ensures ChunkStart(n) == ChunkStart(n - 1) + ChunkLength(n - 1)
  {
  }

  lemma ChunkExtends(payload: seq<Byte>, pad: Byte, n: nat, before: seq<Byte>, body: seq<Byte>)
    requires n > 0 && before == Padded(payload, pad, 0, ChunkStart(n - 1)) && body == Chunk(payload, pad, n - 1)
    ensures before + body == Padded(payload, pad, 0, ChunkStart(n))
  {
    NextChunkStart(n);
    BodyExtends(payload, pad, ChunkStart(n - 1), ChunkLength(n - 1), before, body);
  }

  lemma {:induction false} ChunksJoin(frames: seq<Data>, payload: seq<Byte>, pad: Byte, n: nat)
    requires n <= |frames| && forall i :: 0 <= i < |frames| ==> Body(frames[i], i) == Chunk(payload, pad, i)
    ensures Bodies(frames, n) == Padded(payload, pad, 0, ChunkStart(n))
  {
    if n > 0 {
      ChunksJoin(frames, payload, pad, n - 1);
      ChunkExtends(payload, pad, n, Bodies(frames, n - 1), Body(frames[n - 1], n - 1));
    }
  }

  /** The frames of a message spell its payload, followed by less than a frame of padding. */
  lemma FramesSpellTheMessage(payload: seq<Byte>, seqId: nat, pad: Byte)
    requires |payload| <= MAX_PAYLOAD && seqId < 8
    ensures var frames := FastData(payload, seqId, pad);
            var bodies := Bodies(frames, |frames|);
            && payload <= bodies && |bodies| < |payload| + 7
            && forall k :: |payload| <= k < |bodies| ==> bodies[k] == pad
  {
    var frames := FastData(payload, seqId, pad);
    forall i | 0 <= i < |frames| ensures Body(frames[i], i) == Chunk(payload, pad, i) {
      BodyIsChunk(payload, seqId, pad, i);
    }
    ChunksJoin(frames, payload, pad, |frames|);
  }

  /** The frames of a message carry its id, are numbered from 0, and the first one tells the length. */
  lemma FramesAreNumbered(payload: seq<Byte>, seqId: nat, pad: Byte, i: nat)
    requires |payload| <= MAX_PAYLOAD && seqId < 8 && i <= ContinuationCount(|payload|)
    ensures var frames := FastData(payload, seqId, pad);
            SeqIdOf(frames[i][0]) == seqId && FrameNumOf(frames[i][0]) == i && frames[0][1] == |payload|
  {
    HeaderByte(seqId, i);
  }

  function Framed(id: nat, data: seq<Data>): (frames: seq<CanFrame>)
    ensures |frames| == |data|
    ensures forall i :: 0 <= i < |data| ==> frames[i] == CanFrame(id, FRAME_LENGTH, data[i])
  {
    if data == [] then [] else Framed(id, data[..|data| - 1]) + [CanFrame(id, FRAME_LENGTH, data[|data| - 1])]
  }

  function SingleFrame(id: nat, payload: seq<Byte>): CanFrame
    requires |payload| <= FRAME_LENGTH
  {
    CanFrame(id, |payload|, Padded(payload, PADDING, 0, FRAME_LENGTH))
  }

  /** The last used sequence ids by source and PGN. */
  type IdMap = map<Byte, map<nat, Byte>>

  function IdFor(ids: IdMap, source: Byte, pgn: nat): Byte {
    if source in ids && pgn in ids[source] then ids[source][pgn] else 0
  }

  function NextId(id: Byte): Byte {
    (id + 1) % SEQUENCE_IDS
  }

  function Bump(ids: IdMap, source: Byte, pgn: nat): IdMap {
    var byPgn: map<nat, Byte> := if source in ids then ids[source] else map[];
    ids[source := byPgn[pgn := NextId(IdFor(ids, source, pgn))]]
  }

  /** The ids used for one (source, PGN) while messages of any are accepted. */
  function UsedIds(ids: IdMap, sends: seq<(Byte, nat)>, source: Byte, pgn: nat): seq<Byte>
    decreases |sends|
  {
    if sends == [] then []
    else
      (if sends[0] == (source, pgn) then [IdFor(ids, source, pgn)] else [])
      + UsedIds(Bump(ids, sends[0].0, sends[0].1), sends[1..], source, pgn)
  }

  /** An id turned on n times. */
  function Turned(id: Byte, n: nat): Byte
    decreases n
  {
    if n == 0 then id else Turned(NextId(id), n - 1)
  }

  lemma {:induction false} TurningCounts(id: Byte, n: nat)
    requires id < SEQUENCE_IDS
    ensures Turned(id, n) == (id + n) % SEQUENCE_IDS
    decreases n
  {
    if n > 0 { TurningCounts(NextId(id), n - 1); }
  }

  /** The i-th message of one (source, PGN) uses the id turned on i times. */
  lemma {:induction false} IdsTurn(ids: IdMap, sends: seq<(Byte, nat)>, source: Byte, pgn: nat, i: nat)
    requires i < |UsedIds(ids, sends, source, pgn)|
    ensures UsedIds(ids, sends, source, pgn)[i] == Turned(IdFor(ids, source, pgn), i)
    decreases |sends|
  {
    var next := Bump(ids, sends[0].0, sends[0].1);
    var rest := UsedIds(next, sends[1..], source, pgn);
    BumpTurnsOneId(ids, sends[0].0, sends[0].1, source, pgn);
    if sends[0] == (source, pgn) {
      assert UsedIds(ids, sends, source, pgn) == [IdFor(ids, source, pgn)] + rest;
      if i > 0 { IdsTurn(next, sends[1..], source, pgn, i - 1); }
    } else {
      assert UsedIds(ids, sends, source, pgn) == rest;
      IdsTurn(next, sends[1..], source, pgn, i);
    }
  }

  lemma BumpTurnsOneId(ids: IdMap, sender: Byte, sent: nat, source: Byte, pgn: nat)
    ensures IdFor(Bump(ids, sender, sent), source, pgn) ==
              if (sender, sent) == (source, pgn) then NextId(IdFor(ids, source, pgn)) else IdFor(ids, source, pgn)
  {
  }

  /** The ids of one (source, PGN) count modulo seven, from zero at a new adapter. */
  lemma IdsCountModuloSeven(ids: IdMap, sends: seq<(Byte, nat)>, source: Byte, pgn: nat, i: nat)
    requires i < |UsedIds(ids, sends, source, pgn)|
    requires source in ids && pgn in ids[source] ==> ids[source][pgn] < 7
    ensures UsedIds(ids, sends, source, pgn)[i] ==
              ((if source in ids && pgn in ids[source] then ids[source][pgn] as int else 0) + i) % 7
  {
    IdsTurn(ids, sends, source, pgn, i);
    TurningCounts(IdFor(ids, source, pgn), i);
  }

  /** Any seven consecutive accepted messages of one (source, PGN) carry distinct ids, whatever else is sent meanwhile. */
  lemma SevenMessagesDiffer(ids: IdMap, sends: seq<(Byte, nat)>, source: Byte, pgn: nat, i: nat, j: nat)
    requires source in ids && pgn in ids[source] ==> ids[source][pgn] < 7
    requires i < j < |UsedIds(ids, sends, source, pgn)| && j < i + 7
    ensures UsedIds(ids, sends, source, pgn)[i] != UsedIds(ids, sends, source, pgn)[j]
  {
    IdsCountModuloSeven(ids, sends, source, pgn, i);
    IdsCountModuloSeven(ids, sends, source, pgn, j);
  }

  /** HandleMessage: what one frame does to the builder and hands to the handler. */
  function Receive(table: seq<Byte>, builder: Builder, frame: CanFrame): (result: (Builder, seq<Delivery>))
    requires WellFormedBuilder(builder)
    ensures WellFormedBuilder(result.0)
  {
    ReceiveAs(table, builder, Decode(frame.id), frame.data)
  }

  function ReceiveAs(table: seq<Byte>, builder: Builder, info: MessageInfo, data: Data): (result: (Builder, seq<Delivery>))
    requires WellFormedBuilder(builder)
    ensures WellFormedBuilder(result.0)
  {
    if info.pgn == 0 then (builder, [Delivery(info, data, true)])
    else if IsFast(table, info.pgn) then
      var (after, verdict) := Add(builder, Arrival(info.source, info.pgn, data));
      (after, if verdict.Delivered? then [Delivery(info, verdict.payload, false)] else [])
    else (builder, [Delivery(info, data, false)])
  }

  function ReceiveAll(table: seq<Byte>, builder: Builder, frames: seq<CanFrame>): (result: (Builder, seq<Delivery>))
    requires WellFormedBuilder(builder)
    ensures WellFormedBuilder(result.0)
  {
    if frames == [] then (builder, [])
    else
      var (before, delivered) := ReceiveAll(table, builder, frames[..|frames| - 1]);
      var (after, more) := Receive(table, before, frames[|frames| - 1]);
      (after, delivered + more)
  }

  /** What a message becomes at the receiver: global PGNs lose their target. */
  function Received(info: MessageInfo): MessageInfo {
    info.(target := if info.pgn / 256 % 256 < 240 then info.target else 255)
  }

  lemma ReceivedIsDecoded(info: MessageInfo)
    requires ProperInfo(info)
    ensures Decode(Encode(info)) == Received(info)
  {
    IdRoundTrip(info);
  }

  /** One frame of a fast PGN does to its own sequence what feeding the sequence does. */
  lemma FastFrameFeeds(table: seq<Byte>, builder: Builder, info: MessageInfo, data: Data)
    requires WellFormedBuilder(builder) && info.pgn != 0 && IsFast(table, info.pgn)
    ensures var key := Key(info.source, info.pgn, SeqIdOf(data[0]));
            var (after, delivered) := ReceiveAs(table, builder, info, data);
            var (state, verdict) := Feed(Lookup(builder, key), data);
            && Lookup(after, key) == state
            && delivered == if verdict.Delivered? then [Delivery(info, verdict.payload, false)] else []
  {
    ArrivalFeedsItsKey(builder, Arrival(info.source, info.pgn, data), Key(info.source, info.pgn, SeqIdOf(data[0])));
  }

  function Deliveries(info: MessageInfo, payloads: seq<seq<Byte>>): seq<Delivery> {
    if payloads == [] then []
    else Deliveries(info, payloads[..|payloads| - 1]) + [Delivery(info, payloads[|payloads| - 1], false)]
  }

  lemma OneMoreDelivery(info: MessageInfo, payloads: seq<seq<Byte>>, verdict: Verdict)
    ensures Deliveries(info, payloads + if verdict.Delivered? then [verdict.payload] else []) ==
              Deliveries(info, payloads) + if verdict.Delivered? then [Delivery(info, verdict.payload, false)] else []
  {
    if verdict.Delivered? {
      assert (payloads + [verdict.payload])[..|payloads|] == payloads;
    } else {
      assert payloads + [] == payloads;
    }
  }

  lemma OneMoreFrame(table: seq<Byte>, builder: Builder, id: nat, data: seq<Data>, last: Data)
    requires WellFormedBuilder(builder)
    ensures var (before, delivered) := ReceiveAll(table, builder, Framed(id, data));
            var (after, more) := ReceiveAs(table, before, Decode(id), last);
            ReceiveAll(table, builder, Framed(id, data + [last])) == (after, delivered + more)
  {
    var frames := Framed(id, data + [last]);
    assert (data + [last])[..|data|] == data;
    assert frames[..|data|] == Framed(id, data);
  }

  /** Frames of one fast PGN reach the builder one by one and deliver what their sequence delivers. */
  lemma {:induction false} FastFramesFeed(
    table: seq<Byte>, builder: Builder, id: nat, info: MessageInfo, seqId: Byte, data: seq<Data>)
    requires WellFormedBuilder(builder) && Decode(id) == info && info.pgn != 0 && IsFast(table, info.pgn)
    requires forall i :: 0 <= i < |data| ==> SeqIdOf(data[i][0]) == seqId
    ensures var fed := FeedAll(Lookup(builder, Key(info.source, info.pgn, seqId)), data);
            && Lookup(ReceiveAll(table, builder, Framed(id, data)).0, Key(info.source, info.pgn, seqId)) == fed.0
            && ReceiveAll(table, builder, Framed(id, data)).1 == Deliveries(info, fed.1)
  {
    if data != [] {
      var shorter, last := data[..|data| - 1], data[|data| - 1];
      assert data == shorter + [last];
      FastFramesFeed(table, builder, id, info, seqId, shorter);
      var start := Lookup(builder, Key(info.source, info.pgn, seqId));
      OneMoreFrame(table, builder, id, shorter, last);
      FeedAllAppend(start, shorter, last);
      FastFrameFeeds(table, ReceiveAll(table, builder, Framed(id, shorter)).0, info, last);
      OneMoreDelivery(info, FeedAll(start, shorter).1, Feed(FeedAll(start, shorter).0, last).1);
    }
  }

  /**
    End to end: the frames one adapter writes for a fast message, received by
    another adapter in any state, deliver the same PGN, source, priority and
    target and exactly the payload, once.
   */
  lemma FastMessageArrives(table: seq<Byte>, builder: Builder, info: MessageInfo, payload: seq<Byte>, seqId: Byte)
    requires ConsistentBuilder(builder) && ProperInfo(info) && IsFast(table, info.pgn)
    requires |payload| <= MAX_PAYLOAD && seqId < SEQUENCE_IDS
    ensures ReceiveAll(table, builder, Framed(Encode(info), FastData(payload, seqId, PADDING))).1
              == [Delivery(Received(info), payload, false)]
  {
    ReceivedIsDecoded(info);
    MessageArrivesUnderId(table, builder, Encode(info), Received(info), payload, seqId);
  }

  lemma MessageArrivesUnderId(
    table: seq<Byte>, builder: Builder, id: nat, info: MessageInfo, payload: seq<Byte>, seqId: Byte)
    requires ConsistentBuilder(builder) && Decode(id) == info && info.pgn != 0 && IsFast(table, info.pgn)
    requires |payload| <= MAX_PAYLOAD && seqId < SEQUENCE_IDS
    ensures ReceiveAll(table, builder, Framed(id, FastData(payload, seqId, PADDING))).1 == [Delivery(info, payload, false)]
  {
    var data := FastData(payload, seqId, PADDING);
    forall i | 0 <= i < |data| ensures SeqIdOf(data[i][0]) == seqId {
      FramesAreNumbered(payload, seqId, PADDING, i);
    }
    FastFramesFeed(table, builder, id, info, seqId, data);
    FastDataDelivers(Lookup(builder, Key(info.source, info.pgn, seqId)), payload, seqId, PADDING);
    OneMoreDelivery(info, [], Delivered(payload));
  }

  /** A single-frame message states its length, arrives padded to eight bytes, and leaves the builder alone. */
  lemma SingleMessageArrives(table: seq<Byte>, builder: Builder, info: MessageInfo, payload: seq<Byte>)
    requires WellFormedBuilder(builder) && ProperInfo(info) && !IsFast(table, info.pgn) && |payload| <= 8
    ensures SingleFrame(Encode(info), payload).length == |payload|
    ensures var (after, delivered) := Receive(table, builder, SingleFrame(Encode(info), payload));
            && after == builder && |delivered| == 1 && delivered[0].info == Received(info) && !delivered[0].faulty
            && |delivered[0].data| == 8 && payload <= delivered[0].data
            && forall k :: |payload| <= k < 8 ==> delivered[0].data[k] == 0xFF
  {
    ReceivedIsDecoded(info);
    SingleArrivesUnderId(table, builder, Encode(info), Received(info), payload);
  }

  lemma SingleArrivesUnderId(table: seq<Byte>, builder: Builder, id: nat, info: MessageInfo, payload: seq<Byte>)
    requires WellFormedBuilder(builder) && Decode(id) == info && info.pgn != 0 && !IsFast(table, info.pgn)
    requires |payload| <= 8
    ensures Receive(table, builder, SingleFrame(id, payload)) ==
              (builder, [Delivery(info, Padded(payload, 0xFF, 0, 8), false)])
  {
  }

  /** A frame under PGN zero is handed on as it is, marked as faulty, and leaves the builder alone. */
  lemma ZeroPgnIsFaulty(table: seq<Byte>, builder: Builder, frame: CanFrame)
    requires WellFormedBuilder(builder) && Decode(frame.id).pgn == 0
    ensures Receive(table, builder, frame) == (builder, [Delivery(Decode(frame.id), frame.data, true)])
  {
  }

  /** The frames a raw log line of more than eight bytes is split into: numbers wrap at 32, padding is zero. */
  function RawData(payload: seq<Byte>): (frames: seq<Data>)
    requires FRAME_LENGTH < |payload| < 256
  {
    RawPrefix(payload, 1 + ContinuationCount(|payload|))
  }

  function RawPrefix(payload: seq<Byte>, n: nat): (frames: seq<Data>)
    requires |payload| < 256
    ensures |frames| == n
    ensures forall i :: 0 <= i < n ==> frames[i] == RawFrame(payload, i)
  {
    if n == 0 then [] else RawPrefix(payload, n - 1) + [RawFrame(payload, n - 1)]
  }

  function RawFrame(payload: seq<Byte>, i: nat): Data
    requires |payload| < 256
  {
    if i == 0 then [0, |payload|] + Chunk(payload, 0, 0) else [i % 32] + Chunk(payload, 0, i)
  }

  /** They spell the line, followed by less than a frame of zeros; their numbers count modulo 32. */
  lemma RawFramesSpellTheLine(payload: seq<Byte>)
    requires 8 < |payload| < 256
    ensures var frames := RawData(payload);
            var bodies := Bodies(frames, |frames|);
            && payload <= bodies && |bodies| < |payload| + 7
            && (forall k :: |payload| <= k < |bodies| ==> bodies[k] == 0)
            && |frames| > 1 && frames[0][1] == |payload|
            && forall i :: 0 <= i < |frames| ==> frames[i][0] == i % 32
  {
    var frames := RawData(payload);
    forall i | 0 <= i < |frames| ensures Body(frames[i], i) == Chunk(payload, 0, i) && frames[i][0] == i % 32 {
      assert frames[i] == RawFrame(payload, i);
    }
    ChunksJoin(frames, payload, 0, |frames|);
  }

  lemma ShortRawLine(s: SeqState, payload: seq<Byte>)
    requires Consistent(s) && FRAME_LENGTH < |payload| <= MAX_PAYLOAD
    ensures FeedAll(s, RawData(payload)).1 == [payload]
  {
    forall i | 0 <= i < |RawData(payload)| ensures RawData(payload)[i] == FastData(payload, 0, 0)[i] {
      RawFrameIsFrame(payload, i);
    }
    assert RawData(payload) == FastData(payload, 0, 0);
    FastDataDelivers(s, payload, 0, 0);
  }

  lemma RawFrameIsFrame(payload: seq<Byte>, i: nat)
    requires |payload| <= MAX_PAYLOAD && i <= MAX_FRAME_NUM
    ensures RawFrame(payload, i) == Frame(payload, 0, 0, i)
  {
  }

  /**
    A split log line reassembles to its bytes exactly when it has at most 223 of
    them: beyond, the frame number wraps and no sequence can hold the message.
   */
  lemma RawLineReassembles(s: SeqState, payload: seq<Byte>)
    requires Consistent(s) && FRAME_LENGTH < |payload| < 256
    ensures FeedAll(s, RawData(payload)).1 == [payload] <==> |payload| <= MAX_PAYLOAD
  {
    if |payload| <= MAX_PAYLOAD {
      ShortRawLine(s, payload);
    } else {
      var payloads := FeedAll(s, RawData(payload)).1;
      FeedingKeepsConsistent(s, RawData(payload));
      assert payloads == [payload] ==> payload in payloads;
    }
  }
}
