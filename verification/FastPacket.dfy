/**
  Fast packets: messages of up to 223 bytes cut into 8-byte frames. This module
  says what the frames of a message are and what one sequence does with a frame.
 */
module FastPacket {
  import opened Bits
  import opened Wrappers

  const MAX_FRAME_NUM: nat := 31
  const FRAME_COUNT: nat := 32
  const FRAME_LENGTH: nat := 8
  const MAX_PAYLOAD: nat := 223

  /** The data bytes of a frame on the bus; always eight of them. */
  type Data = d: seq<Byte> | |d| == 8 witness [0, 0, 0, 0, 0, 0, 0, 0]

  /** The three high bits of the first byte tell concurrent messages apart. */
  function SeqIdOf(first: Byte): (id: Byte)
    ensures id < 8
  {
    first / 32
  }

  /** The five low bits of the first byte number the frames of a message. */
  function FrameNumOf(first: Byte): (num: nat)
    ensures num <= MAX_FRAME_NUM
  {
    first % 32
  }

  /** The receiver takes the header apart with masks and a shift. */
  lemma HeaderBits(first: Byte)
    ensures Shr(And(first, 0xE0), 5) == SeqIdOf(first)
    ensures And(first, 0x1F) == FrameNumOf(first)
  {
    PowersOfTwo();
    MaskIsLow(first, 5);
    MaskedField(first, 5, 3);
  }

  /** The header byte a sender builds with a shift and an or. */
  lemma HeaderByte(seqId: nat, num: nat)
    requires seqId < 8 && num <= MAX_FRAME_NUM
    ensures Or(Shl(seqId, 5), num) == seqId * 32 + num
    ensures SeqIdOf(seqId * 32 + num) == seqId && FrameNumOf(seqId * 32 + num) == num
  {
    PowersOfTwo();
    OrOfDisjoint(seqId, num, 5);
  }

  /** How many frames follow frame 0 of a message of this length. */
  function ContinuationCount(length: nat): (count: nat)
    ensures length <= 6 ==> count == 0
    ensures length > 6 ==> 6 + 7 * (count - 1) < length <= 6 + 7 * count
    ensures count <= MAX_FRAME_NUM <==> length <= MAX_PAYLOAD
  {
    if length <= 6 then 0
    else (length - 6) / 7 + if (length - 6) % 7 > 0 then 1 else 0
  }

  function ChunkStart(i: nat): nat {
    if i == 0 then 0 else 6 + 7 * (i - 1)
  }

  function ChunkLength(i: nat): nat {
    if i == 0 then 6 else 7
  }

  function PaddedByte(payload: seq<Byte>, pad: Byte, k: nat): Byte {
    if k < |payload| then payload[k] else pad
  }

  /** Bytes start to start + n of the payload, padded past its end. */
  function Padded(payload: seq<Byte>, pad: Byte, start: nat, n: nat): (bytes: seq<Byte>)
    ensures |bytes| == n
    ensures forall j :: 0 <= j < n ==> bytes[j] == PaddedByte(payload, pad, start + j)
  {
    if n == 0 then [] else Padded(payload, pad, start, n - 1) + [PaddedByte(payload, pad, start + n - 1)]
  }

  /** The part of the payload that frame i carries, padded to fill the frame. */
  function Chunk(payload: seq<Byte>, pad: Byte, i: nat): (chunk: seq<Byte>)
    ensures |chunk| == ChunkLength(i)
  {
    Padded(payload, pad, ChunkStart(i), ChunkLength(i))
  }

  /** Frame i of a message. */
  function Frame(payload: seq<Byte>, seqId: nat, pad: Byte, i: nat): Data
    requires |payload| <= MAX_PAYLOAD && seqId < 8 && i <= MAX_FRAME_NUM
  {
    if i == 0 then [seqId * 32, |payload|] + Chunk(payload, pad, 0)
    else [seqId * 32 + i] + Chunk(payload, pad, i)
  }

  /** What a sequence holds of a message in progress. */
  datatype SeqState = SeqState(started: bool, expected: Byte, received: Byte, contents: seq<Option<seq<Byte>>>)

  function NoContents(): (contents: seq<Option<seq<Byte>>>)
    ensures |contents| == FRAME_COUNT && forall i :: 0 <= i < FRAME_COUNT ==> contents[i] == None
  {
    seq(FRAME_COUNT, i => None)
  }

  /** A sequence that has just been created or reset. */
  function EmptySequence(): SeqState {
    SeqState(false, 0, 0, NoContents())
  }

  predicate WellFormed(s: SeqState) {
    |s.contents| == FRAME_COUNT
  }

  /** A uint8 addition. */
  function Add8(a: Byte, b: Byte): Byte {
    (a + b) % 256
  }

  /** sequence.add */
  function AddFrame(s: SeqState, data: Data): (after: SeqState)
    requires WellFormed(s)
    ensures WellFormed(after)
  {
    var num := FrameNumOf(data[0]);
    if num == 0 then
      var base := if s.started then EmptySequence() else s;
      SeqState(true, data[1], Add8(base.received, 6), base.contents[0 := Some(data[2..])])
    else if !s.started || s.contents[num].Some? then EmptySequence()
    else s.(received := Add8(s.received, 7), contents := s.contents[num := Some(data[1..])])
  }

  datatype Verdict = Incomplete | Sparse | Delivered(payload: seq<Byte>)

  /** The loop of sequence.complete: stored frames in order until enough bytes, or nothing at a gap. */
  function Gather(s: SeqState, i: nat, results: seq<Byte>): Option<seq<Byte>>
    requires WellFormed(s)
    decreases FRAME_COUNT - i
  {
    if i >= FRAME_COUNT then Some(results)
    else if s.contents[i] == None then None
    else if |results + s.contents[i].value| >= s.expected then Some(results + s.contents[i].value)
    else Gather(s, i + 1, results + s.contents[i].value)
  }

  /** sequence.complete */
  function Finish(s: SeqState): Verdict
    requires WellFormed(s)
  {
    if !s.started || s.received < s.expected then Incomplete
    else match Gather(s, 0, [])
      case None => Sparse
      case Some(results) => Delivered(if s.expected <= |results| then results[..s.expected] else results)
  }

  /** One frame arrives; a finished sequence is dropped. */
  function Feed(s: SeqState, data: Data): (result: (SeqState, Verdict))
    requires WellFormed(s)
    ensures WellFormed(result.0)
  {
    var next := AddFrame(s, data);
    var verdict := Finish(next);
    (if verdict.Incomplete? then next else EmptySequence(), verdict)
  }

  /** How many continuation frames below i are stored. */
  function StoredBelow(contents: seq<Option<seq<Byte>>>, i: nat): (count: nat)
    requires i <= |contents|
    ensures i > 0 ==> count <= i - 1
  {
    if i <= 1 then 0 else StoredBelow(contents, i - 1) + if contents[i - 1].Some? then 1 else 0
  }

  /**
    The invariant of a sequence under any stream of frames: nothing is stored
    before frame 0; after it, `received` is exactly 6 plus 7 per stored
    continuation frame, so it never exceeds 223 and never wraps.
   */
  ghost predicate Consistent(s: SeqState) {
    && WellFormed(s)
    && (!s.started ==> s == EmptySequence())
    && (s.started ==>
          && s.contents[0].Some? && |s.contents[0].value| == 6
          && (forall i :: 1 <= i < FRAME_COUNT && s.contents[i].Some? ==> |s.contents[i].value| == 7)
          && s.received == 6 + 7 * StoredBelow(s.contents, FRAME_COUNT))
  }

  lemma {:induction false} StoringCounts(contents: seq<Option<seq<Byte>>>, num: nat, chunk: seq<Byte>, i: nat)
    requires 1 <= num < |contents| && i <= |contents| && contents[num] == None
    ensures StoredBelow(contents[num := Some(chunk)], i) == StoredBelow(contents, i) + if num < i then 1 else 0
  {
    if i > 1 { StoringCounts(contents, num, chunk, i - 1); }
  }

  lemma {:induction false} NothingStored(contents: seq<Option<seq<Byte>>>, i: nat)
    requires i <= |contents| && forall j :: 1 <= j < i ==> contents[j] == None
    ensures StoredBelow(contents, i) == 0
  {
    if i > 1 { NothingStored(contents, i - 1); }
  }

  lemma AddKeepsConsistent(s: SeqState, data: Data)
    requires Consistent(s)
    ensures Consistent(AddFrame(s, data))
    ensures AddFrame(s, data).received <= MAX_PAYLOAD
  {
    var num := FrameNumOf(data[0]);
    var after := AddFrame(s, data);
    if num == 0 {
      NothingStored(after.contents, FRAME_COUNT);
    } else if after.started {
      StoringCounts(s.contents, num, data[1..], FRAME_COUNT);
    }
  }

  /** The bytes of the first n stored frames. */
  function Joined(contents: seq<Option<seq<Byte>>>, n: nat): seq<Byte>
    requires n <= |contents| && forall i :: 0 <= i < n ==> contents[i].Some?
  {
    if n == 0 then [] else Joined(contents, n - 1) + contents[n - 1].value
  }

  lemma {:induction false} JoinedLength(s: SeqState, n: nat)
    requires Consistent(s) && s.started && n <= FRAME_COUNT
    requires forall i :: 0 <= i < n ==> s.contents[i].Some?
    ensures |Joined(s.contents, n)| == (if n == 0 then 0 else 6 + 7 * (n - 1))
    ensures n > 0 ==> StoredBelow(s.contents, n) == n - 1
  {
    if n > 0 { JoinedLength(s, n - 1); }
  }

  /** The frames before this one are stored. */
  ghost predicate StoredUpTo(s: SeqState, n: nat) {
    n <= |s.contents| && forall j :: 0 <= j < n ==> s.contents[j].Some?
  }

  /** A frame is missing before the expected bytes are together. */
  ghost predicate StopsAtGap(s: SeqState, gap: nat) {
    StoredUpTo(s, gap) && 0 < gap < |s.contents| && s.contents[gap] == None && |Joined(s.contents, gap)| < s.expected
  }

  /** The first n frames, and no fewer, have the expected bytes. */
  ghost predicate StopsFull(s: SeqState, n: nat) {
    && StoredUpTo(s, n) && n > 0 && |Joined(s.contents, n)| >= s.expected
    && (n > 1 ==> |Joined(s.contents, n - 1)| < s.expected)
  }

  /** Gathering stops at the first frame that completes the expected bytes, or at the first gap before it. */
  lemma {:induction false} GatherJoins(s: SeqState, i: nat)
    requires Consistent(s) && s.started && s.received >= s.expected && i < FRAME_COUNT && StoredUpTo(s, i)
    requires i > 0 ==> |Joined(s.contents, i)| < s.expected
    ensures match Gather(s, i, Joined(s.contents, i))
            case None => exists gap: nat :: StopsAtGap(s, gap)
            case Some(results) => exists n: nat :: StopsFull(s, n) && results == Joined(s.contents, n)
    decreases FRAME_COUNT - i
  {
    if s.contents[i].Some? {
      assert Joined(s.contents, i + 1) == Joined(s.contents, i) + s.contents[i].value;
      if |Joined(s.contents, i + 1)| < s.expected {
        JoinedLength(s, i + 1);
        if i + 1 < FRAME_COUNT { GatherJoins(s, i + 1); }
      } else {
        assert StopsFull(s, i + 1);
      }
    } else if i == 0 {
      assert false;
    } else {
      assert StopsAtGap(s, i);
    }
  }

  /** A delivered payload is the first `expected` bytes of consecutive stored frames, starting with frame 0. */
  lemma DeliveryIsStored(s: SeqState)
    requires Consistent(s) && Finish(s).Delivered?
    ensures |Finish(s).payload| == s.expected <= MAX_PAYLOAD
    ensures exists n :: 1 <= n <= FRAME_COUNT && (forall j :: 0 <= j < n ==> s.contents[j].Some?)
              && s.expected <= |Joined(s.contents, n)| && Finish(s).payload == Joined(s.contents, n)[..s.expected]
  {
    GatherJoins(s, 0);
    assert Joined(s.contents, 0) == [];
  }

  /** Byte k of a message is in this stored frame, at this place. */
  function StoredByte(contents: seq<Option<seq<Byte>>>, k: nat): Option<Byte> {
    if k < 6 then
      if |contents| > 0 && contents[0].Some? && k < |contents[0].value| then Some(contents[0].value[k]) else None
    else
      var i, j := 1 + (k - 6) / 7, (k - 6) % 7;
      if i < |contents| && contents[i].Some? && j < |contents[i].value| then Some(contents[i].value[j]) else None
  }

  lemma {:induction false} JoinedByte(s: SeqState, n: nat, k: nat)
    requires Consistent(s) && s.started && n <= FRAME_COUNT && StoredUpTo(s, n) && k < |Joined(s.contents, n)|
    ensures StoredByte(s.contents, k) == Some(Joined(s.contents, n)[k])
  {
    JoinedLength(s, n);
    JoinedLength(s, n - 1);
    if k < |Joined(s.contents, n - 1)| {
      JoinedByte(s, n - 1, k);
    }
  }

  /** A frame that the message under way needs has not come in. */
  predicate Missing(s: SeqState) {
    exists i :: 0 <= i <= ContinuationCount(s.expected) && (i >= |s.contents| || s.contents[i] == None)
  }

  lemma GapIsMissing(s: SeqState, gap: nat)
    requires Consistent(s) && s.started && StopsAtGap(s, gap)
    ensures Missing(s)
  {
    JoinedLength(s, gap);
  }

  lemma FullIsNotMissing(s: SeqState, n: nat)
    requires Consistent(s) && s.started && n <= FRAME_COUNT && StopsFull(s, n)
    ensures !Missing(s)
  {
    JoinedLength(s, n);
    if n > 1 { JoinedLength(s, n - 1); }
  }

  /**
    What a sequence comes to: as long as too few bytes are in, nothing; then, if a
    frame it needs is missing, an error; else the expected number of bytes, each
    from the frame and the place that carry it.
   */
  lemma FinishMeans(s: SeqState)
    requires Consistent(s) && s.started
    ensures Finish(s).Incomplete? <==> s.received < s.expected
    ensures Finish(s).Sparse? <==> s.received >= s.expected && Missing(s)
    ensures Finish(s).Delivered? ==>
              |Finish(s).payload| == s.expected
              && forall k :: 0 <= k < s.expected ==> StoredByte(s.contents, k) == Some(Finish(s).payload[k])
  {
    if s.received >= s.expected {
      GatherJoins(s, 0);
      assert Joined(s.contents, 0) == [];
      match Gather(s, 0, [])
      case None =>
        var gap: nat :| StopsAtGap(s, gap);
        GapIsMissing(s, gap);
      case Some(results) =>
        var n: nat :| StopsFull(s, n) && results == Joined(s.contents, n);
        FullIsNotMissing(s, n);
        forall k | 0 <= k < s.expected ensures StoredByte(s.contents, k) == Some(Finish(s).payload[k]) {
          JoinedByte(s, n, k);
        }
    }
  }
}
