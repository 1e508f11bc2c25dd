/**
  Reassembly of fast packets: one sequence per (source, PGN, sequence id), fed by
  an interleaved, noisy stream of frames.
 */
module Reassembly {
  import opened Bits
  import opened FastPacket
  import opened Wrappers

  /** Feeds frames in turn; the payloads delivered on the way. */
  function FeedAll(s: SeqState, frames: seq<Data>): (result: (SeqState, seq<seq<Byte>>))
    requires WellFormed(s)
    ensures WellFormed(result.0)
  {
    if frames == [] then (s, [])
    else
      var (before, payloads) := FeedAll(s, frames[..|frames| - 1]);
      var (after, verdict) := Feed(before, frames[|frames| - 1]);
      (after, payloads + if verdict.Delivered? then [verdict.payload] else [])
  }

  lemma {:induction false} FeedingKeepsConsistent(s: SeqState, frames: seq<Data>)
    requires Consistent(s)
    ensures Consistent(FeedAll(s, frames).0)
    ensures forall p :: p in FeedAll(s, frames).1 ==> |p| <= MAX_PAYLOAD
  {
    if frames != [] {
      var (before, payloads) := FeedAll(s, frames[..|frames| - 1]);
      FeedingKeepsConsistent(s, frames[..|frames| - 1]);
      FeedKeepsConsistent(before, frames[|frames| - 1]);
    }
  }

  /** Noise in, consistency out: whatever frame arrives, and nothing longer than 223 bytes is ever delivered. */
  lemma FeedKeepsConsistent(s: SeqState, data: Data)
    requires Consistent(s)
    ensures Consistent(Feed(s, data).0)
    ensures Feed(s, data).1.Delivered? ==> |Feed(s, data).1.payload| <= MAX_PAYLOAD
  {
    AddKeepsConsistent(s, data);
    if Finish(AddFrame(s, data)).Delivered? {
      DeliveryIsStored(AddFrame(s, data));
    }
  }

  /** The continuation frames of a message in some order: each of 1..count once. */
  predicate IsOrder(order: seq<nat>, count: nat) {
    && |order| == count
    && (forall k :: 0 <= k < count ==> 1 <= order[k] <= count)
    && (forall i :: 1 <= i <= count ==> i in order)
    && (forall k, l :: 0 <= k < l < count ==> order[k] != order[l])
  }

  /** Frame 0 of a message and then its continuation frames in the given order. */
  function MessageFrames(payload: seq<Byte>, seqId: nat, pad: Byte, order: seq<nat>): (frames: seq<Data>)
    requires |payload| <= MAX_PAYLOAD && seqId < 8
    requires forall k :: 0 <= k < |order| ==> order[k] <= MAX_FRAME_NUM
    ensures |frames| == 1 + |order|
    ensures forall c :: 0 <= c < |frames| ==>
              frames[c] == Frame(payload, seqId, pad, if c == 0 then 0 else order[c - 1])
  {
    if order == [] then [Frame(payload, seqId, pad, 0)]
    else MessageFrames(payload, seqId, pad, order[..|order| - 1]) + [Frame(payload, seqId, pad, order[|order| - 1])]
  }

  /** Frame 0 and the first j continuation frames of the order are in, and nothing else. */
  ghost predicate Progress(s: SeqState, payload: seq<Byte>, pad: Byte, order: seq<nat>, j: nat)
    requires j <= |order|
  {
    && Consistent(s) && s.started && s.expected == |payload| && s.received == 6 + 7 * j
    && s.contents[0] == Some(Chunk(payload, pad, 0))
    && (forall i :: 1 <= i < FRAME_COUNT ==>
          s.contents[i] == if i in order[..j] then Some(Chunk(payload, pad, i)) else None)
  }

  /** The stored frames of a message, joined, are its padded payload. */
  lemma {:induction false} JoinedIsPadded(s: SeqState, payload: seq<Byte>, pad: Byte, order: seq<nat>, j: nat, n: nat)
    requires j <= |order| && Progress(s, payload, pad, order, j) && n <= FRAME_COUNT
    requires forall i :: 0 <= i < n ==> s.contents[i].Some?
    ensures |Joined(s.contents, n)| == ChunkStart(n)
    ensures forall k :: 0 <= k < |Joined(s.contents, n)| ==> Joined(s.contents, n)[k] == PaddedByte(payload, pad, k)
  {
    if n > 0 {
      JoinedIsPadded(s, payload, pad, order, j, n - 1);
      assert s.contents[n - 1] == Some(Chunk(payload, pad, n - 1));
      ChunkContinues(Joined(s.contents, n - 1), payload, pad, n - 1);
    }
  }

  lemma ChunkContinues(joined: seq<Byte>, payload: seq<Byte>, pad: Byte, i: nat)
    requires |joined| == ChunkStart(i) && forall k :: 0 <= k < |joined| ==> joined[k] == PaddedByte(payload, pad, k)
    ensures var longer := joined + Chunk(payload, pad, i);
            |longer| == ChunkStart(i + 1)
            && forall k :: 0 <= k < |longer| ==> longer[k] == PaddedByte(payload, pad, k)
  {
  }

  /** With all continuation frames in, exactly the frames 0..count are stored. */
  lemma CompleteMessageIsStored(s: SeqState, payload: seq<Byte>, pad: Byte, order: seq<nat>, i: nat)
    requires |payload| <= MAX_PAYLOAD && IsOrder(order, ContinuationCount(|payload|))
    requires Progress(s, payload, pad, order, |order|) && i < FRAME_COUNT
    ensures s.contents[i].Some? <==> i <= ContinuationCount(|payload|)
  {
    assert order[..|order|] == order;
  }

  lemma CompleteMessageHasNoGap(s: SeqState, payload: seq<Byte>, pad: Byte, order: seq<nat>, gap: nat)
    requires |payload| <= MAX_PAYLOAD && IsOrder(order, ContinuationCount(|payload|))
    requires Progress(s, payload, pad, order, |order|)
    requires 0 < gap < FRAME_COUNT && s.contents[gap] == None && forall j :: 0 <= j < gap ==> s.contents[j].Some?
    ensures |Joined(s.contents, gap)| >= |payload|
  {
    JoinedIsPadded(s, payload, pad, order, |order|, gap);
    CompleteMessageIsStored(s, payload, pad, order, gap);
  }

  lemma CompleteMessageGathers(s: SeqState, payload: seq<Byte>, pad: Byte, order: seq<nat>, n: nat)
    requires |payload| <= MAX_PAYLOAD && IsOrder(order, ContinuationCount(|payload|))
    requires Progress(s, payload, pad, order, |order|)
    requires 0 < n <= FRAME_COUNT && forall j :: 0 <= j < n ==> s.contents[j].Some?
    requires |Joined(s.contents, n)| >= |payload|
    ensures Joined(s.contents, n)[..|payload|] == payload
  {
    JoinedIsPadded(s, payload, pad, order, |order|, n);
  }

  lemma CompleteMessageFinishes(s: SeqState, payload: seq<Byte>, pad: Byte, order: seq<nat>)
    requires |payload| <= MAX_PAYLOAD && IsOrder(order, ContinuationCount(|payload|))
    requires Progress(s, payload, pad, order, |order|)
    ensures Finish(s) == Delivered(payload)
  {
    GatherJoins(s, 0);
    assert Joined(s.contents, 0) == [];
    match Gather(s, 0, [])
    case None =>
      var gap :| 0 <= gap < FRAME_COUNT && s.contents[gap] == None
        && (forall j :: 0 <= j < gap ==> s.contents[j].Some?) && |Joined(s.contents, gap)| < s.expected && gap > 0;
      CompleteMessageHasNoGap(s, payload, pad, order, gap);
      assert false;
    case Some(results) =>
      var n :| 0 < n <= FRAME_COUNT && (forall j :: 0 <= j < n ==> s.contents[j].Some?)
        && results == Joined(s.contents, n) && |results| >= s.expected;
      CompleteMessageGathers(s, payload, pad, order, n);
  }

  /** Frame 0 starts its message afresh, whatever stale frames the sequence held. */
  lemma FrameZeroStarts(s: SeqState, payload: seq<Byte>, seqId: nat, pad: Byte, order: seq<nat>)
    requires Consistent(s) && |payload| <= MAX_PAYLOAD && seqId < 8
    ensures Progress(AddFrame(s, Frame(payload, seqId, pad, 0)), payload, pad, order, 0)
  {
    var data := Frame(payload, seqId, pad, 0);
    HeaderByte(seqId, 0);
    AddKeepsConsistent(s, data);
    assert data[2..] == Chunk(payload, pad, 0);
  }

  lemma OrderExtends(order: seq<nat>, j: nat)
    requires IsOrder(order, |order|) && j < |order|
    ensures order[j] !in order[..j]
    ensures forall i :: i in order[..j + 1] <==> i in order[..j] || i == order[j]
  {
    assert order[..j + 1] == order[..j] + [order[j]];
  }

  lemma ContinuationIsStored(s: SeqState, payload: seq<Byte>, seqId: nat, pad: Byte, num: nat)
    requires |payload| <= MAX_PAYLOAD && seqId < 8 && 1 <= num <= MAX_FRAME_NUM
    requires WellFormed(s) && s.started && s.contents[num] == None
    ensures AddFrame(s, Frame(payload, seqId, pad, num)) ==
              s.(received := Add8(s.received, 7), contents := s.contents[num := Some(Chunk(payload, pad, num))])
  {
    HeaderByte(seqId, num);
    assert Frame(payload, seqId, pad, num)[1..] == Chunk(payload, pad, num);
  }

  lemma OneMoreSeven(received: Byte, j: nat)
    requires received == 6 + 7 * j && j < MAX_FRAME_NUM
    ensures Add8(received, 7) == 6 + 7 * (j + 1)
  {
  }

  /** The frames stored after the j-th continuation frame of the order. */
  lemma StoredExtends(
    contents: seq<Option<seq<Byte>>>, payload: seq<Byte>, pad: Byte, order: seq<nat>, j: nat, i: nat)
    requires |contents| == FRAME_COUNT && IsOrder(order, |order|) && j < |order| && 1 <= order[j] < FRAME_COUNT
    requires 1 <= i < FRAME_COUNT
    requires contents[i] == if i in order[..j] then Some(Chunk(payload, pad, i)) else None
    ensures contents[order[j] := Some(Chunk(payload, pad, order[j]))][i]
            == if i in order[..j + 1] then Some(Chunk(payload, pad, i)) else None
  {
    OrderExtends(order, j);
  }

  lemma ContinuationProgresses(s: SeqState, payload: seq<Byte>, seqId: nat, pad: Byte, order: seq<nat>, j: nat)
    requires |payload| <= MAX_PAYLOAD && seqId < 8 && IsOrder(order, ContinuationCount(|payload|)) && j < |order|
    requires Progress(s, payload, pad, order, j)
    ensures Progress(AddFrame(s, Frame(payload, seqId, pad, order[j])), payload, pad, order, j + 1)
  {
    var num := order[j];
    var after := AddFrame(s, Frame(payload, seqId, pad, num));
    OrderExtends(order, j);
    ContinuationIsStored(s, payload, seqId, pad, num);
    AddKeepsConsistent(s, Frame(payload, seqId, pad, num));
    OneMoreSeven(s.received, j);
    forall i | 1 <= i < FRAME_COUNT
      ensures after.contents[i] == if i in order[..j + 1] then Some(Chunk(payload, pad, i)) else None
    {
      StoredExtends(s.contents, payload, pad, order, j, i);
    }
  }

  lemma UnfinishedWaits(s: SeqState, payload: seq<Byte>, pad: Byte, order: seq<nat>, j: nat)
    requires |payload| <= MAX_PAYLOAD && |order| == ContinuationCount(|payload|) && j < |order|
    requires Progress(s, payload, pad, order, j)
    ensures Finish(s) == Incomplete
  {
  }

  /** What the sequence holds right after the c-th frame, before it looks whether it is done. */
  lemma NextFrameProgresses(s: SeqState, payload: seq<Byte>, seqId: nat, pad: Byte, order: seq<nat>, c: nat)
    requires Consistent(s) && |payload| <= MAX_PAYLOAD && seqId < 8
    requires IsOrder(order, ContinuationCount(|payload|)) && 1 <= c <= 1 + |order|
    requires c > 1 ==> Progress(s, payload, pad, order, c - 2)
    ensures Progress(AddFrame(s, MessageFrames(payload, seqId, pad, order)[c - 1]), payload, pad, order, c - 1)
  {
    if c == 1 {
      FrameZeroStarts(s, payload, seqId, pad, order);
    } else {
      ContinuationProgresses(s, payload, seqId, pad, order, c - 2);
    }
  }

  lemma FrameFeeds(s: SeqState, payload: seq<Byte>, seqId: nat, pad: Byte, order: seq<nat>, c: nat)
    requires Consistent(s) && |payload| <= MAX_PAYLOAD && seqId < 8
    requires IsOrder(order, ContinuationCount(|payload|)) && 1 <= c <= 1 + |order|
    requires c > 1 ==> Progress(s, payload, pad, order, c - 2)
    ensures var (after, verdict) := Feed(s, MessageFrames(payload, seqId, pad, order)[c - 1]);
            if c <= |order| then verdict == Incomplete && Progress(after, payload, pad, order, c - 1)
            else verdict == Delivered(payload) && after == EmptySequence()
  {
    var next := AddFrame(s, MessageFrames(payload, seqId, pad, order)[c - 1]);
    NextFrameProgresses(s, payload, seqId, pad, order, c);
    if c <= |order| {
      UnfinishedWaits(next, payload, pad, order, c - 1);
    } else {
      CompleteMessageFinishes(next, payload, pad, order);
    }
  }

  lemma FeedAllSplits(s: SeqState, frames: seq<Data>, c: nat)
    requires WellFormed(s) && 1 <= c <= |frames|
    ensures var (before, payloads) := FeedAll(s, frames[..c - 1]);
            var (after, verdict) := Feed(before, frames[c - 1]);
            FeedAll(s, frames[..c]) == (after, payloads + if verdict.Delivered? then [verdict.payload] else [])
  {
    assert frames[..c][..c - 1] == frames[..c - 1];
  }

  /** Until its last frame a message delivers nothing; with it, exactly its payload. */
  lemma {:induction false} MessageDeliversOnce(s: SeqState, payload: seq<Byte>, seqId: nat, pad: Byte, order: seq<nat>, c: nat)
    requires Consistent(s) && |payload| <= MAX_PAYLOAD && seqId < 8
    requires IsOrder(order, ContinuationCount(|payload|)) && 1 <= c <= 1 + |order|
    ensures var (after, payloads) := FeedAll(s, MessageFrames(payload, seqId, pad, order)[..c]);
            if c <= |order| then payloads == [] && Progress(after, payload, pad, order, c - 1)
            else payloads == [payload] && after == EmptySequence()
  {
    var frames := MessageFrames(payload, seqId, pad, order);
    if c > 1 { MessageDeliversOnce(s, payload, seqId, pad, order, c - 1); }
    FeedAllSplits(s, frames, c);
    FrameFeeds(FeedAll(s, frames[..c - 1]).0, payload, seqId, pad, order, c);
  }

  lemma WholeMessageDelivers(s: SeqState, payload: seq<Byte>, seqId: nat, pad: Byte, order: seq<nat>)
    requires Consistent(s) && |payload| <= MAX_PAYLOAD && seqId < 8
    requires IsOrder(order, ContinuationCount(|payload|))
    ensures FeedAll(s, MessageFrames(payload, seqId, pad, order)) == (EmptySequence(), [payload])
  {
    var frames := MessageFrames(payload, seqId, pad, order);
    assert frames[..|frames|] == frames;
    MessageDeliversOnce(s, payload, seqId, pad, order, |frames|);
  }

  /** A message with a gap is given up at the frame that shows it: nothing is delivered, nothing is kept. */
  lemma GapEndsTheMessage(s: SeqState, data: Data)
    requires Consistent(s)
    requires var next := AddFrame(s, data); next.started && next.received >= next.expected && Missing(next)
    ensures Feed(s, data) == (EmptySequence(), Sparse)
  {
    AddKeepsConsistent(s, data);
    FinishMeans(AddFrame(s, data));
  }

  lemma StrayFrameResets(s: SeqState, data: Data)
    requires WellFormed(s) && data[0] % 32 != 0 && (!s.started || s.contents[data[0] % 32].Some?)
    ensures Feed(s, data) == (EmptySequence(), Incomplete)
  {
  }

  /**
    A continuation frame that is already there, or that belongs to no message,
    leaves nothing of the message; nothing is delivered until the next frame 0.
   */
  lemma {:induction false} RepeatedFrameEndsTheMessage(s: SeqState, data: Data, rest: seq<Data>)
    requires Consistent(s) && data[0] % 32 != 0 && (!s.started || s.contents[data[0] % 32].Some?)
    requires forall i :: 0 <= i < |rest| ==> rest[i][0] % 32 != 0
    ensures FeedAll(s, [data] + rest) == (EmptySequence(), [])
  {
    if rest == [] {
      StrayFrameResets(s, data);
      var frames: seq<Data> := [data] + rest;
      assert frames[..|frames| - 1] == [] && frames[|frames| - 1] == data;
      assert FeedAll(s, frames).0 == EmptySequence() && FeedAll(s, frames).1 == [];
    } else {
      var shorter, last := rest[..|rest| - 1], rest[|rest| - 1];
      RepeatedFrameEndsTheMessage(s, data, shorter);
      StrayFrameResets(EmptySequence(), last);
      assert [data] + rest == ([data] + shorter) + [last];
      FeedAllAppend(s, [data] + shorter, last);
    }
  }

  /** What a builder tells concurrent messages apart by. */
  datatype Key = Key(source: Byte, pgn: nat, seqId: Byte)

  /** A frame on the bus: who sent it, under which PGN, and its data bytes. */
  datatype Arrival = Arrival(source: Byte, pgn: nat, data: Data)

  function KeyOf(arrival: Arrival): Key {
    Key(arrival.source, arrival.pgn, SeqIdOf(arrival.data[0]))
  }

  type Builder = map<Key, SeqState>

  function Lookup(builder: Builder, key: Key): SeqState {
    if key in builder then builder[key] else EmptySequence()
  }

  ghost predicate ConsistentBuilder(builder: Builder) {
    forall key :: key in builder ==> Consistent(builder[key])
  }

  /** MultiBuilder.Add */
  function Add(builder: Builder, arrival: Arrival): (Builder, Verdict)
    requires WellFormed(Lookup(builder, KeyOf(arrival)))
  {
    var (after, verdict) := Feed(Lookup(builder, KeyOf(arrival)), arrival.data);
    (if verdict.Incomplete? then builder[KeyOf(arrival) := after] else builder - {KeyOf(arrival)}, verdict)
  }

  /** Everything delivered while processing a stream, and the builder it leaves. */
  datatype Processed = Processed(builder: Builder, delivered: seq<(Key, seq<Byte>)>)

  predicate WellFormedBuilder(builder: Builder) {
    forall key :: key in builder ==> WellFormed(builder[key])
  }

  function Process(builder: Builder, arrivals: seq<Arrival>): (result: Processed)
    requires WellFormedBuilder(builder)
    ensures WellFormedBuilder(result.builder)
  {
    if arrivals == [] then Processed(builder, [])
    else
      var before := Process(builder, arrivals[..|arrivals| - 1]);
      var last := arrivals[|arrivals| - 1];
      var (after, verdict) := Add(before.builder, last);
      Processed(after, before.delivered + if verdict.Delivered? then [(KeyOf(last), verdict.payload)] else [])
  }

  /** The frame came from the key's source, under its PGN and with its sequence id. */
  predicate BelongsTo(arrival: Arrival, key: Key) {
    arrival.source == key.source && arrival.pgn == key.pgn && arrival.data[0] / 32 == key.seqId
  }

  /** The data of the arrivals that belong to one key, in order. */
  function DataFor(arrivals: seq<Arrival>, key: Key): seq<Data> {
    if arrivals == [] then []
    else
      var last := arrivals[|arrivals| - 1];
      DataFor(arrivals[..|arrivals| - 1], key) + if BelongsTo(last, key) then [last.data] else []
  }

  function DeliveredFor(delivered: seq<(Key, seq<Byte>)>, key: Key): seq<seq<Byte>> {
    if delivered == [] then []
    else
      var last := delivered[|delivered| - 1];
      DeliveredFor(delivered[..|delivered| - 1], key) + if last.0 == key then [last.1] else []
  }

  lemma DeliveredForAppend(delivered: seq<(Key, seq<Byte>)>, last: (Key, seq<Byte>), key: Key)
    ensures DeliveredFor(delivered + [last], key) == DeliveredFor(delivered, key) + if last.0 == key then [last.1] else []
  {
    assert (delivered + [last])[..|delivered|] == delivered;
  }

  lemma FeedAllAppend(s: SeqState, frames: seq<Data>, data: Data)
    requires WellFormed(s)
    ensures var (before, payloads) := FeedAll(s, frames);
            var (after, verdict) := Feed(before, data);
            FeedAll(s, frames + [data]) == (after, payloads + if verdict.Delivered? then [verdict.payload] else [])
  {
    assert (frames + [data])[..|frames|] == frames;
  }

  /** One more arrival feeds its own key and no other. */
  lemma ArrivalFeedsItsKey(builder: Builder, last: Arrival, key: Key)
    requires WellFormedBuilder(builder)
    ensures Lookup(Add(builder, last).0, key) ==
              if KeyOf(last) == key then Feed(Lookup(builder, key), last.data).0 else Lookup(builder, key)
  {
  }

  /** Keys do not disturb each other: each sees only its own frames. */
  lemma {:induction false} KeysAreIndependent(builder: Builder, arrivals: seq<Arrival>, key: Key)
    requires WellFormedBuilder(builder)
    ensures Lookup(Process(builder, arrivals).builder, key) == FeedAll(Lookup(builder, key), DataFor(arrivals, key)).0
    ensures DeliveredFor(Process(builder, arrivals).delivered, key) ==
              FeedAll(Lookup(builder, key), DataFor(arrivals, key)).1
  {
    if arrivals != [] {
      var shorter, last := arrivals[..|arrivals| - 1], arrivals[|arrivals| - 1];
      var before := Process(builder, shorter);
      KeysAreIndependent(builder, shorter, key);
      ArrivalFeedsItsKey(before.builder, last, key);
      var verdict := Add(before.builder, last).1;
      var extra := if verdict.Delivered? then [(KeyOf(last), verdict.payload)] else [];
      assert Process(builder, arrivals).delivered == before.delivered + extra;
      if verdict.Delivered? {
        DeliveredForAppend(before.delivered, (KeyOf(last), verdict.payload), key);
      } else {
        assert before.delivered + extra == before.delivered;
      }
      if KeyOf(last) == key {
        FeedAllAppend(Lookup(builder, key), DataFor(shorter, key), last.data);
      } else {
        assert DataFor(arrivals, key) == DataFor(shorter, key);
      }
    }
  }

  /** The same on the bus: the frames of a key after a repeated one deliver nothing until its next frame 0. */
  lemma RepeatedFrameSilencesTheKey(builder: Builder, arrivals: seq<Arrival>, key: Key, data: Data, rest: seq<Data>)
    requires ConsistentBuilder(builder) && DataFor(arrivals, key) == [data] + rest
    requires data[0] % 32 != 0 && forall i :: 0 <= i < |rest| ==> rest[i][0] % 32 != 0
    requires key !in builder || builder[key].contents[data[0] % 32].Some?
    ensures DeliveredFor(Process(builder, arrivals).delivered, key) == []
    ensures Lookup(Process(builder, arrivals).builder, key) == EmptySequence()
  {
    KeysAreIndependent(builder, arrivals, key);
    RepeatedFrameEndsTheMessage(Lookup(builder, key), data, rest);
  }

  lemma {:induction false} DataForPrefix(arrivals: seq<Arrival>, key: Key, cut: nat)
    requires cut <= |arrivals|
    ensures |DataFor(arrivals[..cut], key)| <= |DataFor(arrivals, key)|
    ensures DataFor(arrivals[..cut], key) == DataFor(arrivals, key)[..|DataFor(arrivals[..cut], key)|]
  {
    if cut == |arrivals| {
      assert arrivals[..cut] == arrivals;
    } else {
      assert arrivals[..|arrivals| - 1][..cut] == arrivals[..cut];
      DataForPrefix(arrivals[..|arrivals| - 1], key, cut);
    }
  }

  /**
    From any state of the builder, stale partial messages included, the frames of
    a message, frame 0 first and the rest in any order, interleaved with any
    frames of other keys, deliver its payload exactly once, byte for byte, and
    only when its last frame has arrived.
   */
  lemma MessagesAreReassembled(
    builder: Builder, arrivals: seq<Arrival>, key: Key,
    payload: seq<Byte>, pad: Byte, order: seq<nat>, cut: nat)
    requires ConsistentBuilder(builder) && |payload| <= MAX_PAYLOAD && key.seqId < 8
    requires IsOrder(order, ContinuationCount(|payload|))
    requires DataFor(arrivals, key) == MessageFrames(payload, key.seqId, pad, order)
    requires cut <= |arrivals|
    ensures DeliveredFor(Process(builder, arrivals[..cut]).delivered, key) ==
              if |DataFor(arrivals[..cut], key)| == |DataFor(arrivals, key)| then [payload] else []
    ensures Lookup(Process(builder, arrivals).builder, key) == EmptySequence()
  {
    DataForPrefix(arrivals, key, cut);
    KeysAreIndependent(builder, arrivals[..cut], key);
    KeysAreIndependent(builder, arrivals, key);
    var c := |DataFor(arrivals[..cut], key)|;
    if c > 0 {
      MessageDeliversOnce(Lookup(builder, key), payload, key.seqId, pad, order, c);
    }
    WholeMessageDelivers(Lookup(builder, key), payload, key.seqId, pad, order);
  }

  /** Whatever frames arrive, the builder stays consistent. */
  lemma {:induction false} ProcessingKeepsConsistent(builder: Builder, arrivals: seq<Arrival>)
    requires ConsistentBuilder(builder)
    ensures ConsistentBuilder(Process(builder, arrivals).builder)
    ensures forall i :: 0 <= i < |Process(builder, arrivals).delivered| ==>
              |Process(builder, arrivals).delivered[i].1| <= MAX_PAYLOAD
  {
    if arrivals != [] {
      var last := arrivals[|arrivals| - 1];
      ProcessingKeepsConsistent(builder, arrivals[..|arrivals| - 1]);
      FeedKeepsConsistent(Lookup(Process(builder, arrivals[..|arrivals| - 1]).builder, KeyOf(last)), last.data);
    }
  }
}
