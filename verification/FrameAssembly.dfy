/** The reassembly objects: a packet under way, one sequence, and the keyed collection of sequences. */
module FrameAssembly {
  import opened Bits
  import opened CanId
  import opened FastPacket
  import opened Reassembly
  import opened Wrappers

  datatype ParseError = ZeroPgn | EmptyData | SparseData

  /** What reassembly reads and changes of a packet. */
  datatype PacketView = PacketView(data: seq<Byte>, complete: bool, parseErrors: seq<ParseError>)

  /** A finished message replaces the frame's data; a gap is noted; anything else leaves the packet incomplete. */
  function Settled(p: PacketView, verdict: Verdict): PacketView {
    match verdict
    case Incomplete => p.(complete := false)
    case Sparse => p.(parseErrors := p.parseErrors + [SparseData])
    case Delivered(payload) => p.(data := payload, complete := true)
  }

  /** What a verdict does to the packet that brought the frame. */
  lemma VerdictsSettle(p: PacketView, verdict: Verdict)
    requires !p.complete
    ensures var after := Settled(p, verdict);
            && (after.complete <==> verdict.Delivered?)
            && after.data == (if verdict.Delivered? then verdict.payload else p.data)
            && after.parseErrors == p.parseErrors + (if verdict.Sparse? then [SparseData] else [])
  {
  }

  class Packet {
    const info: MessageInfo
    var data: seq<Byte>
    var seqId: Byte
    var frameNum: nat
    var complete: bool
    var parseErrors: seq<ParseError>

    function View(): PacketView
      reads this`data, this`complete, this`parseErrors
    {
      PacketView(data, complete, parseErrors)
    }

    constructor (messageInfo: MessageInfo, bytes: seq<Byte>)
      ensures info == messageInfo && data == bytes && !complete
      ensures parseErrors == [] <==> messageInfo.pgn != 0 && bytes != []
    {
      info, data, seqId, frameNum, complete := messageInfo, bytes, 0, 0, false;
      parseErrors := [];
      if messageInfo.pgn == 0 {
        parseErrors := parseErrors + [ZeroPgn];
      }
      if |bytes| == 0 {
        parseErrors := parseErrors + [EmptyData];
      }
    }

    method GetSeqFrame()
      requires data != []
      modifies this`seqId, this`frameNum
      ensures seqId == SeqIdOf(data[0]) && frameNum == FrameNumOf(data[0])
    {
      HeaderBits(data[0]);
      seqId := Shr(And(data[0], 0xE0), 5);
      frameNum := And(data[0], 0x1F);
    }
  }

  class Sequence {
    var zero: Packet?
    var expected: Byte
    var received: Byte
    const contents: array<Option<seq<Byte>>>

    ghost function State(): SeqState
      reads this, contents
    {
      SeqState(zero != null, expected, received, contents[..])
    }

    constructor ()
      ensures State() == EmptySequence() && fresh(contents)
    {
      zero, expected, received := null, 0, 0;
      contents := new Option<seq<Byte>>[FRAME_COUNT](_ => None);
      new;
      assert contents[..] == NoContents();
    }

    method Reset()
      requires contents.Length == FRAME_COUNT
      modifies this, contents
      ensures State() == EmptySequence()
    {
      zero := null;
      expected := 0;
      received := 0;
      for i := 0 to contents.Length
        invariant forall j :: 0 <= j < i ==> contents[j] == None
        invariant zero == null && expected == received == 0
      {
        contents[i] := None;
      }
      assert contents[..] == NoContents();
    }

    method AddPacket(p: Packet)
      requires contents.Length == FRAME_COUNT && |p.data| == FRAME_LENGTH && p.frameNum == FrameNumOf(p.data[0])
      modifies this, contents
      ensures State() == AddFrame(old(State()), p.data)
    {
      if p.frameNum == 0 {
        if zero != null {
          Reset();
        }
        zero := p;
        expected := p.data[1];
        contents[p.frameNum] := Some(p.data[2..]);
        received := Add8(received, 6);
      } else {
        if zero == null {
          Reset();
        } else if contents[p.frameNum] != None {
          Reset();
        } else {
          contents[p.frameNum] := Some(p.data[1..]);
          received := Add8(received, 7);
        }
      }
    }

    method Complete(p: Packet) returns (done: bool)
      requires Consistent(State())
      modifies p`data, p`complete, p`parseErrors
      ensures done <==> !Finish(State()).Incomplete?
      ensures p.View() == Settled(old(p.View()), Finish(State()))
    {
      if zero != null {
        if received >= expected {
          GatherJoins(State(), 0);
          var results: seq<Byte> := [];
          for i := 0 to contents.Length
            invariant Gather(State(), 0, []) == Gather(State(), i, results)
            invariant p.complete == old(p.complete) && p.data == old(p.data) && p.parseErrors == old(p.parseErrors)
          {
            if contents[i] == None {
              p.parseErrors := p.parseErrors + [SparseData];
              return true;
            }
            results := results + contents[i].value;
            if |results| >= expected {
              break;
            }
          }
          assert Joined(State().contents, 0) == [];
          p.data := results[..expected];
          p.complete := true;
          return true;
        }
      }
      p.complete := false;
      return false;
    }
  }

  class MultiBuilder {
    var sequences: map<Byte, map<nat, map<Byte, Sequence>>>
    /** What every key's sequence holds; a missing sequence is as good as an empty one. */
    ghost var model: Builder
    /** Which key each sequence and each contents array belongs to. */
    ghost var owner: map<object, Key>

    predicate Has(key: Key)
      reads this`sequences
    {
      key.source in sequences && key.pgn in sequences[key.source] && key.seqId in sequences[key.source][key.pgn]
    }

    function At(key: Key): Sequence
      requires Has(key)
      reads this`sequences
    {
      sequences[key.source][key.pgn][key.seqId]
    }

    ghost predicate Owned()
      reads this`sequences, this`owner
    {
      forall key :: Has(key) ==>
        && At(key) in owner && owner[At(key)] == key
        && At(key).contents in owner && owner[At(key).contents] == key
    }

    ghost predicate Valid()
      reads this, owner.Keys
    {
      && Owned()
      && (forall key :: Has(key) ==> At(key).State() == Lookup(model, key))
      && (forall key :: !Has(key) ==> Lookup(model, key) == EmptySequence())
    }

    constructor ()
      ensures Valid() && model == map[] && owner == map[]
    {
      sequences := map[];
      model := map[];
      owner := map[];
    }

    /** Replaces the innermost map of one source and PGN. */
    method Place(source: Byte, pgn: nat, byId: map<Byte, Sequence>)
      requires source in sequences
      modifies this`sequences
      ensures source in sequences && pgn in sequences[source]
      ensures forall key :: Has(key) <==>
                if key.source == source && key.pgn == pgn then key.seqId in byId else old(Has(key))
      ensures forall key :: Has(key) ==>
                At(key) == if key.source == source && key.pgn == pgn then byId[key.seqId] else old(At(key))
    {
      var byPgn: map<nat, map<Byte, Sequence>> := sequences[source];
      byPgn := byPgn[pgn := byId];
      sequences := sequences[source := byPgn];
    }

    /** Creates the outer maps of a source and PGN on first use. */
    method OpenMaps(source: Byte, pgn: nat)
      modifies this`sequences
      ensures source in sequences && pgn in sequences[source]
      ensures forall key :: Has(key) == old(Has(key))
      ensures forall key :: Has(key) ==> At(key) == old(At(key))
    {
      if source !in sequences {
        sequences := sequences[source := map[]];
      }
      if pgn !in sequences[source] {
        Place(source, pgn, map[]);
      }
    }

    method Insert(source: Byte, pgn: nat, seqId: Byte, sequence: Sequence)
      requires Valid() && source in sequences && pgn in sequences[source] && !Has(Key(source, pgn, seqId))
      requires sequence.State() == EmptySequence()
      requires sequence !in owner && sequence.contents !in owner
      modifies this`sequences, this`owner
      ensures Valid() && owner.Keys == old(owner.Keys) + {sequence, sequence.contents}
      ensures Has(Key(source, pgn, seqId)) && At(Key(source, pgn, seqId)) == sequence
    {
      var byId: map<Byte, Sequence> := sequences[source][pgn];
      Place(source, pgn, byId[seqId := sequence]);
      ghost var added := Key(source, pgn, seqId);
      owner := owner[sequence := added][sequence.contents := added];
      assert forall key :: Has(key) <==> old(Has(key)) || key == added;
      forall key | Has(key)
        ensures At(key) in owner && owner[At(key)] == key
        ensures At(key).contents in owner && owner[At(key).contents] == key
        ensures At(key).State() == Lookup(model, key)
      {
        if key != added { assert old(Has(key)) && At(key) == old(At(key)); }
      }
    }

    method SeqFor(source: Byte, pgn: nat, seqId: Byte) returns (found: Sequence)
      requires Valid()
      modifies this`sequences, this`owner
      ensures Valid() && fresh(owner.Keys - old(owner.Keys)) && old(owner.Keys) <= owner.Keys
      ensures Has(Key(source, pgn, seqId)) && At(Key(source, pgn, seqId)) == found
    {
      OpenMaps(source, pgn);
      assert Valid();
      if seqId in sequences[source][pgn] {
        found := sequences[source][pgn][seqId];
      } else {
        found := new Sequence();
        Insert(source, pgn, seqId, found);
      }
    }

    /** Feeds a frame to one of the sequences; the others are untouched. */
    method Advance(sequence: Sequence, p: Packet, ghost key: Key)
      requires Valid() && Has(key) && At(key) == sequence && WellFormed(Lookup(model, key))
      requires |p.data| == FRAME_LENGTH && p.frameNum == FrameNumOf(p.data[0])
      modifies this`model, sequence, sequence.contents
      ensures Valid()
      ensures model == old(model)[key := AddFrame(Lookup(old(model), key), p.data)]
    {
      sequence.AddPacket(p);
      assert sequences == old(sequences) && owner == old(owner);
      forall k | k != key && Has(k) ensures At(k).State() == old(At(k).State()) {
        assert owner[At(k)] != owner[sequence] && owner[At(k).contents] != owner[sequence.contents];
      }
      model := model[key := AddFrame(Lookup(model, key), p.data)];
    }

    method Remove(source: Byte, pgn: nat, seqId: Byte)
      requires Valid() && Has(Key(source, pgn, seqId))
      modifies this`sequences, this`model
      ensures Valid() && model == old(model) - {Key(source, pgn, seqId)}
    {
      Place(source, pgn, sequences[source][pgn] - {seqId});
      model := model - {Key(source, pgn, seqId)};
      assert forall key :: Has(key) <==> old(Has(key)) && key != Key(source, pgn, seqId);
      forall key | Has(key) ensures At(key).State() == Lookup(model, key) {
        assert old(Has(key)) && At(key) == old(At(key));
      }
    }

    /** Drops the sequence once it has finished, and hands a complete message to the packet. */
    method Settle(sequence: Sequence, p: Packet)
      requires Valid() && p !in owner && Has(Key(p.info.source, p.info.pgn, p.seqId))
      requires At(Key(p.info.source, p.info.pgn, p.seqId)) == sequence
      requires Consistent(Lookup(model, Key(p.info.source, p.info.pgn, p.seqId)))
      modifies this`sequences, this`model, p`data, p`complete, p`parseErrors
      ensures Valid()
      ensures var key := Key(p.info.source, p.info.pgn, p.seqId);
              var verdict := Finish(Lookup(old(model), key));
              && model == (if verdict.Incomplete? then old(model) else old(model) - {key})
              && p.View() == Settled(old(p.View()), verdict)
    {
      var done := sequence.Complete(p);
      if done {
        Remove(p.info.source, p.info.pgn, p.seqId);
      }
    }

    /** One frame into its own sequence, and out with the message if that was the last. */
    method Absorb(sequence: Sequence, p: Packet)
      requires Valid() && p !in owner && |p.data| == FRAME_LENGTH && p.frameNum == FrameNumOf(p.data[0])
      requires var key := Key(p.info.source, p.info.pgn, p.seqId);
               Has(key) && At(key) == sequence && Consistent(Lookup(model, key))
      modifies this`sequences, this`model, sequence, sequence.contents, p`data, p`complete, p`parseErrors
      ensures Valid() && owner == old(owner)
      ensures var key := Key(p.info.source, p.info.pgn, p.seqId);
              var (after, verdict) := Feed(Lookup(old(model), key), old(p.data));
              && model == (if verdict.Incomplete? then old(model)[key := after] else old(model) - {key})
              && p.View() == Settled(old(p.View()), verdict)
    {
      ghost var key := Key(p.info.source, p.info.pgn, p.seqId);
      AddKeepsConsistent(Lookup(model, key), p.data);
      Advance(sequence, p, key);
      assert model - {key} == old(model) - {key};
      Settle(sequence, p);
    }

    /** Finds the frame's sequence and lets it absorb the frame. */
    method Route(p: Packet)
      requires Valid() && p !in owner && |p.data| == FRAME_LENGTH && p.frameNum == FrameNumOf(p.data[0])
      requires Consistent(Lookup(model, Key(p.info.source, p.info.pgn, p.seqId)))
      modifies this, owner.Keys, p`data, p`complete, p`parseErrors
      ensures Valid() && fresh(owner.Keys - old(owner.Keys))
      ensures var key := Key(p.info.source, p.info.pgn, p.seqId);
              var (after, verdict) := Feed(Lookup(old(model), key), old(p.data));
              && model == (if verdict.Incomplete? then old(model)[key := after] else old(model) - {key})
              && p.View() == Settled(old(p.View()), verdict)
    {
      var sequence := SeqFor(p.info.source, p.info.pgn, p.seqId);
      assert p.View() == old(p.View());
      Absorb(sequence, p);
    }

    /** The frame advances its own sequence and no other; a finished message ends up in the packet. */
    method AddPacket(p: Packet)
      requires Valid() && |p.data| == FRAME_LENGTH && p !in owner
      requires Consistent(Lookup(model, KeyOf(Arrival(p.info.source, p.info.pgn, p.data))))
      modifies this, owner.Keys, p
      ensures Valid() && fresh(owner.Keys - old(owner.Keys))
      ensures var (after, verdict) := Add(old(model), Arrival(p.info.source, p.info.pgn, old(p.data)));
              && model == after
              && p.View() == Settled(old(p.View()), verdict)
    {
      p.GetSeqFrame();
      Route(p);
    }
  }
}
