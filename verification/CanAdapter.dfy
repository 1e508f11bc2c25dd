/** The adapter object: it frames outgoing messages and reassembles incoming ones. */
module CanAdapter {
  import opened Bits
  import opened CanId
  import BinaryData
  import opened FastBits
  import opened FastPacket
  import opened FrameAssembly
  import opened Framing
  import opened Reassembly
  import opened Wrappers

  /** Every remembered sequence id is below seven. */
  predicate ProperIds(ids: IdMap) {
    forall source, pgn :: source in ids && pgn in ids[source] ==> ids[source][pgn] < SEQUENCE_IDS
  }

  lemma BumpKeepsProperIds(ids: IdMap, source: Byte, pgn: nat)
    requires ProperIds(ids)
    ensures ProperIds(Bump(ids, source, pgn)) && IdFor(ids, source, pgn) < SEQUENCE_IDS
  {
    var after := Bump(ids, source, pgn);
    forall s, p | s in after && p in after[s] ensures after[s][p] < SEQUENCE_IDS {
      if s == source && p != pgn && s in ids { assert p in ids[s]; }
    }
  }

  lemma ReceiveKeepsConsistent(table: seq<Byte>, builder: Builder, info: MessageInfo, data: Data)
    requires ConsistentBuilder(builder)
    ensures ConsistentBuilder(ReceiveAs(table, builder, info, data).0)
  {
    FeedKeepsConsistent(Lookup(builder, KeyOf(Arrival(info.source, info.pgn, data))), data);
  }

  lemma GrowPrefix<T>(base: seq<T>, all: seq<T>, n: nat)
    requires n < |all|
    ensures base + all[..n + 1] == base + all[..n] + [all[n]]
  {
  }

  /** seqID<<5 | uint8(frameNum), in a uint8 */
  lemma HeaderFits(seqId: Byte, num: nat)
    requires seqId < SEQUENCE_IDS && num <= MAX_FRAME_NUM
    ensures Or(Low(Shl(seqId, 5), 8), num) == seqId * 32 + num < 256
  {
    HeaderByte(seqId, num);
    PowersOfTwo();
    LowFits(Shl(seqId, 5), 8);
  }

  /** Behind its header, frame i carries its chunk. */
  lemma FrameByte(data: seq<Byte>, seqId: Byte, i: nat, offset: nat)
    requires |data| <= MAX_PAYLOAD && seqId < SEQUENCE_IDS && i <= MAX_FRAME_NUM
    requires FRAME_LENGTH - ChunkLength(i) <= offset < FRAME_LENGTH
    ensures Frame(data, seqId, PADDING, i)[offset]
            == PaddedByte(data, PADDING, ChunkStart(i) + (offset - (FRAME_LENGTH - ChunkLength(i))))
  {
  }

  class Adapter {
    const multi: MultiBuilder
    const fastPgnBits: seq<Byte>
    var seqIdMap: IdMap
    /** Frames handed to the endpoint and packets handed to the handler, so far. */
    var written: seq<CanFrame>
    var handled: seq<Delivery>

    ghost predicate Valid()
      reads this, multi, multi.owner.Keys
    {
      && multi.Valid() && this !in multi.owner && ConsistentBuilder(multi.model) && ProperIds(seqIdMap)
    }

    constructor (table: seq<Byte>)
      ensures Valid() && fresh(multi) && multi.owner == map[]
      ensures fastPgnBits == table && multi.model == map[] && seqIdMap == map[] && written == [] && handled == []
    {
      multi := new MultiBuilder();
      fastPgnBits, seqIdMap, written, handled := table, map[], [], [];
    }

    /** Fills the buffer with one frame of a fast message; index is the next byte of data to send. */
    method FillFrame(buffer: array<Byte>, data: seq<Byte>, seqId: Byte, frameNum: nat, index: nat) returns (next: nat)
      requires buffer.Length == FRAME_LENGTH && |data| <= MAX_PAYLOAD && seqId < SEQUENCE_IDS
      requires frameNum <= MAX_FRAME_NUM && index == ChunkStart(frameNum)
      modifies buffer
      ensures buffer[..] == Frame(data, seqId, PADDING, frameNum) && next == ChunkStart(frameNum + 1)
    {
      next := index;
      var offset := 0;
      HeaderFits(seqId, frameNum);
      buffer[offset] := Or(Low(Shl(seqId, 5), 8), frameNum);
      offset := offset + 1;
      if frameNum == 0 {
        buffer[offset] := |data|;
        offset := offset + 1;
      }
      ghost var frame := Frame(data, seqId, PADDING, frameNum);
      while true
        invariant 1 <= offset < FRAME_LENGTH && next - index == offset - (FRAME_LENGTH - ChunkLength(frameNum)) >= 0
        invariant forall k :: 0 <= k < offset ==> buffer[k] == frame[k]
        decreases FRAME_LENGTH - offset
      {
        FrameByte(data, seqId, frameNum, offset);
        if next >= |data| {
          buffer[offset] := PADDING;
        } else {
          buffer[offset] := data[next];
        }
        next := next + 1;
        offset := offset + 1;
        if offset == FRAME_LENGTH {
          break;
        }
      }
      assert buffer[..] == frame;
    }

    method TakeSeqId(source: Byte, pgn: nat) returns (seqId: Byte)
      modifies this`seqIdMap
      ensures seqId == IdFor(old(seqIdMap), source, pgn) && seqIdMap == Bump(old(seqIdMap), source, pgn)
    {
      if source !in seqIdMap {
        seqIdMap := seqIdMap[source := map[]];
      }
      var byPgn: map<nat, Byte> := seqIdMap[source];
      if pgn !in byPgn {
        byPgn := byPgn[pgn := 0];
      }
      seqId := byPgn[pgn];
      byPgn := byPgn[pgn := NextId(seqId)];
      seqIdMap := seqIdMap[source := byPgn];
      ghost var was: map<nat, Byte> := if source in old(seqIdMap) then old(seqIdMap)[source] else map[];
      assert byPgn == was[pgn := NextId(seqId)];
      assert seqIdMap == old(seqIdMap)[source := byPgn];
    }

    /** Fills the buffer with one frame and hands it to the endpoint. */
    method EmitFrame(buffer: array<Byte>, canId: nat, data: seq<Byte>, seqId: Byte, frameNum: nat, index: nat)
      returns (next: nat)
      requires buffer.Length == FRAME_LENGTH && |data| <= MAX_PAYLOAD && seqId < SEQUENCE_IDS
      requires frameNum <= MAX_FRAME_NUM && index == ChunkStart(frameNum)
      modifies buffer, this`written
      ensures next == ChunkStart(frameNum + 1)
      ensures written == old(written) + [CanFrame(canId, FRAME_LENGTH, Frame(data, seqId, PADDING, frameNum))]
    {
      next := FillFrame(buffer, data, seqId, frameNum, index);
      written := written + [CanFrame(canId, FRAME_LENGTH, buffer[..])];
    }

    /** Writes the frames of a fast message out of one reused buffer. */
    method EmitFrames(canId: nat, data: seq<Byte>, seqId: Byte, framesRequired: nat, ghost frames: seq<CanFrame>)
      requires |data| <= MAX_PAYLOAD && framesRequired == ContinuationCount(|data|) && seqId < SEQUENCE_IDS
      requires |frames| == framesRequired + 1
      requires forall i :: 0 <= i < |frames| ==>
                 frames[i] == CanFrame(canId, FRAME_LENGTH, Frame(data, seqId, PADDING, i))
      modifies this`written
      ensures written == old(written) + frames
    {
      var buffer := new Byte[FRAME_LENGTH](_ => 0);
      var index := 0;
      for frameNum := 0 to framesRequired + 1
        invariant index == ChunkStart(frameNum)
        invariant written == old(written) + frames[..frameNum]
      {
        index := EmitFrame(buffer, canId, data, seqId, frameNum, index);
        GrowPrefix(old(written), frames, frameNum);
      }
      assert frames[..framesRequired + 1] == frames;
    }

    /** Rejects exactly the messages over 223 bytes and then changes nothing. */
    method SendFast(source: Byte, pgn: nat, canId: nat, data: seq<Byte>) returns (ok: bool)
      requires ProperIds(seqIdMap)
      modifies this`seqIdMap, this`written
      ensures ProperIds(seqIdMap) && (ok <==> |data| <= MAX_PAYLOAD)
      ensures seqIdMap == if ok then Bump(old(seqIdMap), source, pgn) else old(seqIdMap)
      ensures written == if ok
                         then old(written) + Framed(canId, FastData(data, IdFor(old(seqIdMap), source, pgn), 0xFF))
                         else old(written)
    {
      var framesRequired := ContinuationCount(|data|);
      if framesRequired > MAX_FRAME_NUM {
        return false;
      }
      BumpKeepsProperIds(seqIdMap, source, pgn);
      var seqId := TakeSeqId(source, pgn);
      EmitFrames(canId, data, seqId, framesRequired, Framed(canId, FastData(data, seqId, PADDING)));
      return true;
    }

    /** Rejects exactly the messages over eight bytes. */
    method SendSingle(canId: nat, data: seq<Byte>) returns (ok: bool)
      modifies this`written
      ensures ok <==> |data| <= 8
      ensures written == if ok then old(written) + [SingleFrame(canId, data)] else old(written)
      ensures ok ==>
                var frame := written[|written| - 1];
                && frame.id == canId && frame.length == |data| && data <= frame.data
                && forall k :: |data| <= k < 8 ==> frame.data[k] == 0xFF
    {
      if |data| > FRAME_LENGTH {
        return false;
      }
      var frame := new Byte[FRAME_LENGTH](_ => 0);
      for k := 0 to |data|
        invariant written == old(written) && forall j :: 0 <= j < k ==> frame[j] == data[j]
      {
        frame[k] := data[k];
      }
      var i := |data|;
      while i < FRAME_LENGTH
        invariant |data| <= i <= FRAME_LENGTH && written == old(written)
        invariant forall j :: 0 <= j < i ==> frame[j] == PaddedByte(data, PADDING, j)
      {
        frame[i] := PADDING;
        i := i + 1;
      }
      var bytes := frame[..];
      assert bytes == Padded(data, PADDING, 0, FRAME_LENGTH);
      written := written + [CanFrame(canId, |data|, bytes)];
      return true;
    }

    /** Frames a message by its PGN; an error leaves no trace. */
    method WritePgn(info: MessageInfo, data: seq<Byte>) returns (ok: bool)
      requires Valid()
      modifies this`seqIdMap, this`written
      ensures Valid() && (ok <==> |data| <= if IsFast(fastPgnBits, info.pgn) then MAX_PAYLOAD else FRAME_LENGTH)
      ensures ok && IsFast(fastPgnBits, info.pgn) ==>
                var seqId := IdFor(old(seqIdMap), info.source, info.pgn);
                && seqId < SEQUENCE_IDS
                && written == old(written) + Framed(Encode(info), FastData(data, seqId, 0xFF))
                && seqIdMap == Bump(old(seqIdMap), info.source, info.pgn)
      ensures ok && !IsFast(fastPgnBits, info.pgn) ==>
                written == old(written) + [SingleFrame(Encode(info), data)] && seqIdMap == old(seqIdMap)
      ensures !ok ==> written == old(written) && seqIdMap == old(seqIdMap)
    {
      if IsFast(fastPgnBits, info.pgn) {
        BumpKeepsProperIds(seqIdMap, info.source, info.pgn);
        ok := SendFast(info.source, info.pgn, Encode(info), data);
      } else {
        ok := SendSingle(Encode(info), data);
      }
    }

    method PacketReady(p: Packet)
      modifies this`handled
      ensures handled == old(handled) + [Delivery(p.info, p.data, p.parseErrors != [])]
    {
      handled := handled + [Delivery(p.info, p.data, p.parseErrors != [])];
    }

    /** A frame of a fast PGN goes to the builder; any other is complete as it is. */
    method Assemble(p: Packet)
      requires Valid() && |p.data| == FRAME_LENGTH && p !in multi.owner && p.info.pgn != 0
      requires p.parseErrors == [] && !p.complete
      modifies multi, multi.owner.Keys, p
      ensures Valid() && fresh(multi.owner.Keys - old(multi.owner.Keys))
      ensures multi.model == ReceiveAs(fastPgnBits, old(multi.model), p.info, old(p.data)).0
      ensures ReceiveAs(fastPgnBits, old(multi.model), p.info, old(p.data)).1 ==
                if p.complete then [Delivery(p.info, p.data, p.parseErrors != [])] else []
    {
      ReceiveKeepsConsistent(fastPgnBits, multi.model, p.info, p.data);
      if IsFast(fastPgnBits, p.info.pgn) {
        multi.AddPacket(p);
      } else {
        p.complete := true;
      }
    }

    /** One received frame: what the builder becomes and what the handler gets. */
    method HandleMessage(frame: CanFrame)
      requires Valid()
      modifies this`handled, multi, multi.owner.Keys
      ensures Valid() && fresh(multi.owner.Keys - old(multi.owner.Keys))
      ensures multi.model == Receive(fastPgnBits, old(multi.model), frame).0
      ensures handled == old(handled) + Receive(fastPgnBits, old(multi.model), frame).1
    {
      var p := new Packet(Decode(frame.id), frame.data);
      if |p.parseErrors| > 0 {
        PacketReady(p);
        return;
      }
      Assemble(p);
      if p.complete {
        PacketReady(p);
      }
    }
  }

  /** Copies the next bytes of a log line behind the header of a zeroed frame. */
  method CopyBytes(frame: array<Byte>, at: nat, payload: seq<Byte>, start: nat, n: nat)
    requires at <= frame.Length && start + n <= |payload| && at + n <= frame.Length
    requires at + n == frame.Length || start + n == |payload|
    requires forall k :: at <= k < frame.Length ==> frame[k] == 0
    modifies frame
    ensures frame[..] == old(frame[..at]) + Padded(payload, 0, start, frame.Length - at)
  {
    for i := 0 to n
      invariant frame[..at] == old(frame[..at])
      invariant forall k :: at <= k < at + i ==> frame[k] == payload[start + (k - at)]
      invariant forall k :: at + i <= k < frame.Length ==> frame[k] == 0
    {
      frame[at + i] := payload[start + i];
    }
  }

  method FillRawFrame(payload: seq<Byte>, frameNum: nat, index: nat, n: nat) returns (frame: array<Byte>)
    requires |payload| < 256 && 1 <= frameNum < 256 && index == ChunkStart(frameNum) && index + n <= |payload|
    requires n == 7 || (n < 7 && index + n == |payload|)
    ensures fresh(frame) && frame[..] == RawFrame(payload, frameNum)
  {
    frame := new Byte[FRAME_LENGTH](_ => 0);
    HeaderBits(frameNum);
    frame[0] := And(frameNum, 0x1F);
    CopyBytes(frame, 1, payload, index, n);
  }

  method FillFirstRawFrame(payload: seq<Byte>) returns (frame: array<Byte>)
    requires FRAME_LENGTH < |payload| < 256
    ensures fresh(frame) && frame[..] == RawFrame(payload, 0)
  {
    frame := new Byte[FRAME_LENGTH](_ => 0);
    frame[1] := |payload|;
    CopyBytes(frame, 2, payload, 0, 6);
  }

  predicate IsRawFrame(frame: CanFrame, id: nat, payload: seq<Byte>, i: nat)
    requires |payload| < 256
  {
    frame == CanFrame(id, FRAME_LENGTH, RawFrame(payload, i))
  }

  /** One turn of the splitting loop: the next frame and how many bytes it took. */
  method NextRawFrame(id: nat, payload: seq<Byte>, frameNum: nat, index: nat) returns (frame: CanFrame, copied: nat)
    requires |payload| < 256 && 1 <= frameNum < 256 && index == ChunkStart(frameNum) < |payload|
    ensures IsRawFrame(frame, id, payload, frameNum)
    ensures copied > 0 && index + copied == BinaryData.Min(|payload|, ChunkStart(frameNum + 1))
  {
    copied := if |payload| - index < 7 then |payload| - index else 7;
    var data := FillRawFrame(payload, frameNum, index, copied);
    frame := CanFrame(id, FRAME_LENGTH, data[..]);
  }

  /** The splitting loop, for a line that takes this many frames. */
  method SplitInto(id: nat, payload: seq<Byte>, ghost count: nat) returns (frames: seq<CanFrame>)
    requires FRAME_LENGTH < |payload| < 256 && 6 + 7 * (count - 2) < |payload| <= 6 + 7 * (count - 1)
    ensures |frames| == count && forall i :: 0 <= i < count ==> IsRawFrame(frames[i], id, payload, i)
  {
    var first := FillFirstRawFrame(payload);
    frames := [CanFrame(id, FRAME_LENGTH, first[..])];
    assert IsRawFrame(frames[0], id, payload, 0);
    var remaining, index, frameNum := |payload| - 6, 6, 1;
    while remaining > 0
      invariant remaining == |payload| - index && 1 <= frameNum <= count
      invariant index == BinaryData.Min(|payload|, ChunkStart(frameNum))
      invariant |frames| == frameNum && forall i :: 0 <= i < frameNum ==> IsRawFrame(frames[i], id, payload, i)
    {
      var frame, copied := NextRawFrame(id, payload, frameNum, index);
      frames := frames + [frame];
      remaining, index, frameNum := remaining - copied, index + copied, frameNum + 1;
    }
  }

  /** Splits a log line into frames: up to eight bytes into one, more into a fast packet under sequence id 0. */
  method SplitRawLine(id: nat, payload: seq<Byte>) returns (frames: seq<CanFrame>)
    requires |payload| < 256
    ensures |payload| <= 8 ==>
              && |frames| == 1 && frames[0].id == id && frames[0].length == |payload| && payload <= frames[0].data
              && forall k :: |payload| <= k < 8 ==> frames[0].data[k] == 0
    ensures |payload| > 8 ==> frames == Framed(id, RawData(payload))
  {
    if |payload| <= 8 {
      var data := new Byte[8](_ => 0);
      CopyBytes(data, 0, payload, 0, |payload|);
      return [CanFrame(id, |payload|, data[..])];
    }
    frames := SplitInto(id, payload, 1 + ContinuationCount(|payload|));
    ghost var all := Framed(id, RawData(payload));
    forall i | 0 <= i < |all| ensures frames[i] == all[i] {
      assert IsRawFrame(frames[i], id, payload, i);
    }
  }
}
